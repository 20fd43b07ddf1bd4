/**
  The field-markings manager: the scalar parameters, the line and arc records,
  and the two list nodes of the settings tree that hold the records' nodes.
*/
module RoboCup {
  import opened Wrappers
  import opened Seqs
  import opened VarTree
  import opened Naming
  import opened Adoption
  import opened Reconcile
  import opened Geometry
  import opened ShapeTypes
  import opened WireFormat
  import opened FieldMarkings

  /** The list nodes the line records are bound to, in record order. */
  function LineNodes(rs: seq<FieldLine>): (r: seq<Var>)
    ensures |r| == |rs| && forall i | 0 <= i < |rs| :: r[i] == rs[i].list
  {
    seq(|rs|, i requires 0 <= i < |rs| => rs[i].list)
  }

  /** The list nodes the arc records are bound to, in record order. */
  function ArcNodes(rs: seq<FieldCircularArc>): (r: seq<Var>)
    ensures |r| == |rs| && forall i | 0 <= i < |rs| :: r[i] == rs[i].list
  {
    seq(|rs|, i requires 0 <= i < |rs| => rs[i].list)
  }

  /** One new line per value, each built from explicit values, in order. */
  method NewLines(values: seq<LineValues>) returns (rs: seq<FieldLine>)
    requires forall i | 0 <= i < |values| :: values[i].kind == values[i].name
    ensures |rs| == |values|
    ensures forall i | 0 <= i < |rs| :: fresh(rs[i]) && rs[i].Complete() && fresh(rs[i].Repr())
    ensures forall i | 0 <= i < |rs| :: rs[i].Shaped(LineFields) && rs[i].Values() == values[i]
    ensures Distinct(LineNodes(rs))
  {
    rs := [];
    for i := 0 to |values|
      invariant |rs| == i
      invariant forall j | 0 <= j < i :: fresh(rs[j]) && rs[j].Shaped(LineFields) && fresh(rs[j].Repr()) && rs[j].Values() == values[j]
      invariant forall a, b | 0 <= a < b < |rs| :: rs[a].list != rs[b].list
    {
      var v := values[i];
      label made:
      var line := new FieldLine.WithValues(v.name, v.p1x, v.p1y, v.p2x, v.p2y, v.thickness);
      assert line.Values() == v;
      forall j | 0 <= j < |rs|
        ensures rs[j].Shaped(LineFields) && rs[j].Values() == values[j]
      {
        rs[j].ShapedKept@made(LineFields);
      }
      forall a | 0 <= a < |rs|
        ensures rs[a].list != line.list
      {
        assert old@made(allocated(rs[a].list));
      }
      rs := rs + [line];
    }
    assert Distinct(LineNodes(rs));
  }

  /** The blank records of a growing resize: one per position from `start` up to `n`, named after it. */
  method NewBlankLines(start: nat, n: nat) returns (rs: seq<FieldLine>)
    requires start <= n
    ensures |rs| == n - start
    ensures forall j | 0 <= j < |rs| :: fresh(rs[j]) && rs[j].Blank(LineName(start + j)) && fresh(rs[j].Repr())
    ensures Distinct(LineNodes(rs))
  {
    rs := [];
    for i := start to n
      invariant |rs| == i - start
      invariant forall j | 0 <= j < |rs| :: fresh(rs[j]) && rs[j].Blank(LineName(start + j)) && fresh(rs[j].Repr())
      invariant forall a, b | 0 <= a < b < |rs| :: rs[a].list != rs[b].list
    {
      label made:
      var line := new FieldLine.Named(LineName(i));
      forall j | 0 <= j < |rs|
        ensures rs[j].Blank(LineName(start + j))
      {
        rs[j].BlankKept@made(LineName(start + j));
      }
      forall a | 0 <= a < |rs|
        ensures rs[a].list != line.list
      {
        assert old@made(allocated(rs[a].list));
      }
      rs := rs + [line];
    }
    assert Distinct(LineNodes(rs));
  }

  /** The blank arc records of a growing resize: one per position from `start` up to `n`, named after it. */
  method NewBlankArcs(start: nat, n: nat) returns (rs: seq<FieldCircularArc>)
    requires start <= n
    ensures |rs| == n - start
    ensures forall j | 0 <= j < |rs| :: fresh(rs[j]) && rs[j].Blank(ArcName(start + j)) && fresh(rs[j].Repr())
    ensures Distinct(ArcNodes(rs))
  {
    rs := [];
    for i := start to n
      invariant |rs| == i - start
      invariant forall j | 0 <= j < |rs| :: fresh(rs[j]) && rs[j].Blank(ArcName(start + j)) && fresh(rs[j].Repr())
      invariant forall a, b | 0 <= a < b < |rs| :: rs[a].list != rs[b].list
    {
      label made:
      var arc := new FieldCircularArc.Named(ArcName(i));
      forall j | 0 <= j < |rs|
        ensures rs[j].Blank(ArcName(start + j))
      {
        rs[j].BlankKept@made(ArcName(start + j));
      }
      forall a | 0 <= a < |rs|
        ensures rs[a].list != arc.list
      {
        assert old@made(allocated(rs[a].list));
      }
      rs := rs + [arc];
    }
    assert Distinct(ArcNodes(rs));
  }

  /** Records created after `before` was taken bring nodes of their own: appending them keeps the nodes duplicate-free. */
  twostate lemma LineNodesGrowDistinct(before: seq<FieldLine>, new added: seq<FieldLine>)
    requires Distinct(LineNodes(before)) && Distinct(LineNodes(added))
    requires forall k | 0 <= k < |added| :: added[k].Complete() && fresh(added[k].Repr())
    ensures Distinct(LineNodes(before) + LineNodes(added))
  {
    forall a, b | 0 <= a < |before| && 0 <= b < |added|
      ensures LineNodes(before)[a] != LineNodes(added)[b]
    {
      assert old(allocated(before[a].list));
      assert added[b].list in added[b].Repr();
    }
    DistinctConcat(LineNodes(before), LineNodes(added));
  }

  /** Arc records created after `before` was taken bring nodes of their own: appending them keeps the nodes duplicate-free. */
  twostate lemma ArcNodesGrowDistinct(before: seq<FieldCircularArc>, new added: seq<FieldCircularArc>)
    requires Distinct(ArcNodes(before)) && Distinct(ArcNodes(added))
    requires forall k | 0 <= k < |added| :: added[k].Complete() && fresh(added[k].Repr())
    ensures Distinct(ArcNodes(before) + ArcNodes(added))
  {
    forall a, b | 0 <= a < |before| && 0 <= b < |added|
      ensures ArcNodes(before)[a] != ArcNodes(added)[b]
    {
      assert old(allocated(before[a].list));
      assert added[b].list in added[b].Repr();
    }
    DistinctConcat(ArcNodes(before), ArcNodes(added));
  }

  /** The children still to visit are named as they were when the pass began. */
  ghost predicate Unvisited(entries: seq<Var>, i: nat, names: seq<seq<string>>)
    reads entries, Below(entries)
  {
    && |names| == |entries|
    && forall k | i <= k < |entries| :: BelowCovers(entries, k); Names(entries[k].children) == names[k]
  }

  class RoboCupField {
    /** The scalar parameters of the field. */
    var dims: FieldDimensions
    /** Whether the default lines include the centre line. */
    var centerLine: bool
    /** The requested numbers of line and arc records. */
    var numLines: int
    var numArcs: int
    /** The records, in the order they were created or adopted. */
    var lines: seq<FieldLine>
    var arcs: seq<FieldCircularArc>
    /** The list nodes "Field Lines" and "Field Arcs". */
    const linesList: Var
    const arcsList: Var

    /** The lines node holds exactly the records' nodes, in record order, each once. */
    ghost predicate LinesInSync()
      reads this`lines, linesList`children
    {
      linesList.children == LineNodes(lines) && Distinct(LineNodes(lines))
    }

    /** The arcs node holds exactly the records' nodes, in record order, each once. */
    ghost predicate ArcsInSync()
      reads this`arcs, arcsList`children
    {
      arcsList.children == ArcNodes(arcs) && Distinct(ArcNodes(arcs))
    }

    /** A new field with the initial parameters, whose markings are generated at once. */
    constructor (ballRadius: real, maxRobotRadius: real)
      ensures dims == InitialDimensions(ballRadius, maxRobotRadius) && centerLine
      ensures fresh(linesList) && fresh(arcsList)
      ensures linesList.name == "Field Lines" && arcsList.name == "Field Arcs"
      ensures |lines| == |DefaultLines(dims, centerLine)| == numLines
      ensures forall i | 0 <= i < |lines| ::
                fresh(lines[i]) && lines[i].Shaped(LineFields) && lines[i].Values() == DefaultLines(dims, centerLine)[i]
      ensures |arcs| == numArcs == 1 && fresh(arcs[0])
      ensures arcs[0].Shaped(ArcFields) && arcs[0].Values() == DefaultArcs(dims)[0]
      ensures LinesInSync() && ArcsInSync()
    {
      dims := InitialDimensions(ballRadius, maxRobotRadius);
      centerLine := true;
      numLines := 0;
      numArcs := 0;
      lines := [];
      arcs := [];
      linesList := new Var.List("Field Lines");
      arcsList := new Var.List("Field Arcs");
      new;
      UpdateFieldLinesAndArcs();
    }

    /**
      updateFieldLinesAndArcs: every node is taken out of both lists, and the
      default lines and the centre circle are generated from the current
      parameters and put in their place. field.cpp deletes the record at
      each child's position, so there must be no more children than records.
    */
    method UpdateFieldLinesAndArcs()
      requires linesList != arcsList
      requires |linesList.children| <= |lines| && |arcsList.children| <= |arcs|
      modifies this`lines, this`arcs, this`numLines, this`numArcs, linesList`children, arcsList`children
      ensures |lines| == |DefaultLines(dims, centerLine)| == numLines
      ensures forall i | 0 <= i < |lines| ::
                fresh(lines[i]) && lines[i].Shaped(LineFields) && lines[i].Values() == DefaultLines(dims, centerLine)[i]
      ensures |arcs| == numArcs == 1 && fresh(arcs[0])
      ensures arcs[0].Shaped(ArcFields) && arcs[0].Values() == DefaultArcs(dims)[0]
      ensures LinesInSync() && ArcsInSync()
    {
      LoadDefaultLines();
      LoadDefaultArcs();
    }

    /** The line half of updateFieldLinesAndArcs. */
    method LoadDefaultLines()
      requires |linesList.children| <= |lines|
      modifies this`lines, this`numLines, linesList`children
      ensures |lines| == |DefaultLines(dims, centerLine)| == numLines
      ensures forall i | 0 <= i < |lines| :: fresh(lines[i]) && lines[i].Complete() && fresh(lines[i].Repr())
      ensures forall i | 0 <= i < |lines| ::
                lines[i].Shaped(LineFields) && lines[i].Values() == DefaultLines(dims, centerLine)[i]
      ensures LinesInSync()
    {
      linesList.RemoveChildren(linesList.children);
      WithoutEverything(old(linesList.children), Elems(old(linesList.children)));
      lines := NewLines(DefaultLines(dims, centerLine));
      numLines := |lines|;
      linesList.AddChildren(LineNodes(lines));
    }

    /** The arc half of updateFieldLinesAndArcs: only the centre circle. */
    method LoadDefaultArcs()
      requires |arcsList.children| <= |arcs|
      modifies this`arcs, this`numArcs, arcsList`children
      ensures |arcs| == numArcs == 1 && fresh(arcs[0]) && arcs[0].Complete() && fresh(arcs[0].Repr())
      ensures arcs[0].Shaped(ArcFields) && arcs[0].Values() == DefaultArcs(dims)[0]
      ensures ArcsInSync()
    {
      arcsList.RemoveChildren(arcsList.children);
      WithoutEverything(old(arcsList.children), Elems(old(arcsList.children)));
      var circle := new FieldCircularArc.WithValues("CenterCircle", 0.0, 0.0, dims.centerCircleRadius, 0.0, TwoPi, 10.0);
      arcs := [circle];
      numArcs := |arcs|;
      arcsList.AddChildren(ArcNodes(arcs));
    }

    /**
      ResizeFieldLines: the records beyond the requested number are dropped and
      their nodes taken out of the lines node; missing records are created by
      the name-only constructor, named "Line i" after their position, and their
      nodes appended. field.cpp reads the count as an unsigned size, so it
      must not be negative.
    */
    method ResizeFieldLines()
      requires numLines >= 0
      modifies this`lines, linesList`children
      ensures |lines| == numLines
      ensures numLines < old(|lines|) ==>
                lines == old(lines)[..numLines]
                && linesList.children == Without(old(linesList.children), Elems(LineNodes(old(lines)[numLines..])))
      ensures old(|lines|) <= numLines ==>
                lines[..old(|lines|)] == old(lines)
                && linesList.children == old(linesList.children) + LineNodes(lines[old(|lines|)..])
      ensures numLines == old(|lines|) ==> lines == old(lines) && linesList.children == old(linesList.children)
      ensures forall i | old(|lines|) <= i < |lines| :: fresh(lines[i]) && lines[i].Blank(LineName(i)) && fresh(lines[i].Repr())
      ensures old(LinesInSync()) ==> LinesInSync()
    {
      if numLines < |lines| {
        DropLinesFrom(numLines);
      }
      if numLines > |lines| {
        AppendBlankLines(numLines);
      }
    }

    /** The shrinking half of ResizeFieldLines. */
    method DropLinesFrom(n: nat)
      requires n <= |lines|
      modifies this`lines, linesList`children
      ensures lines == old(lines)[..n]
      ensures linesList.children == Without(old(linesList.children), Elems(LineNodes(old(lines)[n..])))
      ensures old(LinesInSync()) ==> LinesInSync()
    {
      ghost var nodes := LineNodes(lines);
      ghost var synced := LinesInSync();
      linesList.RemoveChildren(LineNodes(lines[n..]));
      lines := lines[..n];
      if synced {
        assert LineNodes(old(lines)[n..]) == nodes[n..];
        WithoutSuffix(nodes, n);
        assert LineNodes(lines) == nodes[..n];
      }
    }

    /** The growing half of ResizeFieldLines: the blank records go to the end, their nodes after the node's children. */
    method AppendBlankLines(n: nat)
      requires |lines| <= n
      modifies this`lines, linesList`children
      ensures |lines| == n && lines[..old(|lines|)] == old(lines)
      ensures linesList.children == old(linesList.children) + LineNodes(lines[old(|lines|)..])
      ensures forall i | old(|lines|) <= i < n :: fresh(lines[i]) && lines[i].Blank(LineName(i)) && fresh(lines[i].Repr())
      ensures old(LinesInSync()) ==> LinesInSync()
    {
      var start := |lines|;
      ghost var before := lines;
      ghost var synced := LinesInSync();
      var added := NewBlankLines(start, n);
      lines := lines + added;
      label grown:
      linesList.AddChildren(LineNodes(added));
      forall i | start <= i < n
        ensures fresh(lines[i]) && lines[i].Blank(LineName(i)) && fresh(lines[i].Repr())
      {
        assert lines[i] == added[i - start];
        lines[i].BlankKept@grown(LineName(i));
      }
      assert lines[start..] == added;
      if synced {
        assert LineNodes(lines) == LineNodes(before) + LineNodes(added);
        LineNodesGrowDistinct(before, added);
      }
    }

    /**
      ResizeFieldArcs: the records beyond the requested number are dropped and
      their nodes taken out of the arcs node; missing records are created by
      the name-only constructor, named "Arc i" after their position, and their
      nodes appended. field.cpp reads the count as an unsigned size, so it
      must not be negative.
    */
    method ResizeFieldArcs()
      requires numArcs >= 0
      modifies this`arcs, arcsList`children
      ensures |arcs| == numArcs
      ensures numArcs < old(|arcs|) ==>
                arcs == old(arcs)[..numArcs]
                && arcsList.children == Without(old(arcsList.children), Elems(ArcNodes(old(arcs)[numArcs..])))
      ensures old(|arcs|) <= numArcs ==>
                arcs[..old(|arcs|)] == old(arcs)
                && arcsList.children == old(arcsList.children) + ArcNodes(arcs[old(|arcs|)..])
      ensures numArcs == old(|arcs|) ==> arcs == old(arcs) && arcsList.children == old(arcsList.children)
      ensures forall i | old(|arcs|) <= i < |arcs| :: fresh(arcs[i]) && arcs[i].Blank(ArcName(i)) && fresh(arcs[i].Repr())
      ensures old(ArcsInSync()) ==> ArcsInSync()
    {
      if numArcs < |arcs| {
        DropArcsFrom(numArcs);
      }
      if numArcs > |arcs| {
        AppendBlankArcs(numArcs);
      }
    }

    /** The shrinking half of ResizeFieldArcs. */
    method DropArcsFrom(n: nat)
      requires n <= |arcs|
      modifies this`arcs, arcsList`children
      ensures arcs == old(arcs)[..n]
      ensures arcsList.children == Without(old(arcsList.children), Elems(ArcNodes(old(arcs)[n..])))
      ensures old(ArcsInSync()) ==> ArcsInSync()
    {
      ghost var nodes := ArcNodes(arcs);
      ghost var synced := ArcsInSync();
      arcsList.RemoveChildren(ArcNodes(arcs[n..]));
      arcs := arcs[..n];
      if synced {
        assert ArcNodes(old(arcs)[n..]) == nodes[n..];
        WithoutSuffix(nodes, n);
        assert ArcNodes(arcs) == nodes[..n];
      }
    }

    /** The growing half of ResizeFieldArcs: the blank records go to the end, their nodes after the node's children. */
    method AppendBlankArcs(n: nat)
      requires |arcs| <= n
      modifies this`arcs, arcsList`children
      ensures |arcs| == n && arcs[..old(|arcs|)] == old(arcs)
      ensures arcsList.children == old(arcsList.children) + ArcNodes(arcs[old(|arcs|)..])
      ensures forall i | old(|arcs|) <= i < n :: fresh(arcs[i]) && arcs[i].Blank(ArcName(i)) && fresh(arcs[i].Repr())
      ensures old(ArcsInSync()) ==> ArcsInSync()
    {
      var start := |arcs|;
      ghost var before := arcs;
      ghost var synced := ArcsInSync();
      var added := NewBlankArcs(start, n);
      arcs := arcs + added;
      label grown:
      arcsList.AddChildren(ArcNodes(added));
      forall i | start <= i < n
        ensures fresh(arcs[i]) && arcs[i].Blank(ArcName(i)) && fresh(arcs[i].Repr())
      {
        assert arcs[i] == added[i - start];
        arcs[i].BlankKept@grown(ArcName(i));
      }
      assert arcs[start..] == added;
      if synced {
        assert ArcNodes(arcs) == ArcNodes(before) + ArcNodes(added);
        ArcNodesGrowDistinct(before, added);
      }
    }

    /**
      applyGeometryDivisionA, B and C: every scalar parameter is overwritten
      from one division's table of constants, passed here as `preset`. The
      markings are not regenerated.
    */
    method ApplyGeometryDivision(preset: FieldDimensions)
      modifies this`dims
      ensures dims == preset
    {
      dims := preset;
    }

    /**
      toProtoBuffer: the length scalars cast to integers by truncation, the
      two radii as they are, then one entry per line and one per arc, in
      record order. Every record must hold all its leaves.
    */
    method ToProtoBuffer() returns (msg: SslGeometryFieldSize)
      requires forall i | 0 <= i < |lines| :: lines[i].Complete()
      requires forall i | 0 <= i < |arcs| :: arcs[i].Complete()
      ensures && msg.fieldLength == Trunc(dims.fieldLength) && msg.fieldWidth == Trunc(dims.fieldWidth)
              && msg.goalWidth == Trunc(dims.goalWidth) && msg.goalDepth == Trunc(dims.goalDepth)
              && msg.boundaryWidth == Trunc(dims.boundaryWidth)
              && msg.penaltyAreaDepth == Trunc(dims.penaltyAreaDepth)
              && msg.penaltyAreaWidth == Trunc(dims.penaltyAreaWidth)
              && msg.centerCircleRadius == Trunc(dims.centerCircleRadius)
              && msg.lineThickness == Trunc(dims.lineThickness)
              && msg.goalCenterToPenaltyMark == Trunc(dims.goalCenterToPenaltyMark)
              && msg.goalHeight == Trunc(dims.goalHeight)
      ensures msg.ballRadius == dims.ballRadius && msg.maxRobotRadius == dims.maxRobotRadius
      ensures |msg.fieldLines| == |lines|
      ensures forall i | 0 <= i < |lines| :: msg.fieldLines[i] == RenderLine(lines[i].Values())
      ensures |msg.fieldArcs| == |arcs|
      ensures forall i | 0 <= i < |arcs| :: msg.fieldArcs[i] == RenderArc(arcs[i].Values())
    {
      var fieldLines: seq<SslFieldLineSegment> := [];
      for i := 0 to |lines|
        invariant |fieldLines| == i
        invariant forall k | 0 <= k < i :: fieldLines[k] == RenderLine(lines[k].Values())
      {
        var line := lines[i];
        var entry := SslFieldLineSegment(
          line.name.text, ParseShapeType(line.kind.text),
          Vector2(line.p1x.number, line.p1y.number), Vector2(line.p2x.number, line.p2y.number),
          line.thickness.number);
        fieldLines := fieldLines + [entry];
      }
      var fieldArcs: seq<SslFieldCircularArc> := [];
      for i := 0 to |arcs|
        invariant |fieldArcs| == i
        invariant forall k | 0 <= k < i :: fieldArcs[k] == RenderArc(arcs[k].Values())
      {
        var arc := arcs[i];
        var entry := SslFieldCircularArc(
          arc.name.text, ParseShapeType(arc.kind.text), Vector2(arc.centerX.number, arc.centerY.number),
          arc.radius.number, arc.a1.number, arc.a2.number, arc.thickness.number);
        fieldArcs := fieldArcs + [entry];
      }
      msg := SslGeometryFieldSize(
        Trunc(dims.fieldLength), Trunc(dims.fieldWidth), Trunc(dims.goalWidth), Trunc(dims.goalDepth),
        Trunc(dims.boundaryWidth), Trunc(dims.penaltyAreaDepth), Trunc(dims.penaltyAreaWidth),
        Trunc(dims.centerCircleRadius), Trunc(dims.lineThickness), Trunc(dims.goalCenterToPenaltyMark),
        Trunc(dims.goalHeight), dims.ballRadius, dims.maxRobotRadius, fieldLines, fieldArcs);
    }

    /**
      ProcessNewFieldLines, run after the settings were read back: each child
      of the lines node that no record is bound to is adopted as a new record
      when its children conform and supply every field, and taken out of the
      node otherwise (the correction recorded with `Adoption.Adopt`); the
      count becomes the number of records. Records whose node has gone are
      kept. The node must not be its own child.
    */
    method ProcessNewFieldLines()
      requires linesList !in linesList.children
      modifies this`lines, this`numLines, linesList`children
      ensures var known, entries := LineNodes(old(lines)), old(linesList.children);
              var accepts := old(Adoptable(linesList.children, LineFields));
              && LineNodes(lines) == known + Adopted(known, entries, accepts)
              && linesList.children == Without(entries, Dropped(known, entries, accepts))
      ensures |lines| >= old(|lines|) && lines[..old(|lines|)] == old(lines)
      ensures forall j | old(|lines|) <= j < |lines| :: fresh(lines[j]) && lines[j].AdoptedFrom() && lines[j].Complete()
      ensures numLines == |lines|
    {
      ghost var known, start := LineNodes(lines), |lines|;
      var entries := linesList.children;
      ghost var names, accepts := BeginLinePass(entries);
      VisitLineEntries(entries, known, names, accepts, start);
      forall j | start <= j < |lines| ensures lines[j].Complete() {
        lines[j].AdoptedIsComplete();
      }
      numLines := |lines|;
    }

    /** The loop of ProcessNewFieldLines over the children `entries` it started with. */
    method VisitLineEntries(entries: seq<Var>, ghost known: seq<Var>, ghost names: seq<seq<string>>, ghost accepts: set<Var>, ghost start: nat)
      requires LinePass(entries, 0, known, names, accepts, start)
      requires forall a, b | 0 <= a < |entries| && 0 <= b < |entries| && entries[a] == entries[b] :: names[a] == names[b]
      requires accepts == AcceptedBy(entries, names, LineFields)
      modifies this`lines, linesList`children
      ensures LineNodes(lines) == known + Adopted(known, entries, accepts)
      ensures linesList.children == Without(entries, Dropped(known, entries, accepts))
      ensures |lines| >= old(|lines|) && lines[..old(|lines|)] == old(lines)
      ensures forall j | old(|lines|) <= j < |lines| :: fresh(lines[j]) && lines[j].AdoptedFrom()
    {
      for i := 0 to |entries|
        invariant LinePass(entries, i, known, names, accepts, start)
        invariant |lines| >= old(|lines|) && lines[..old(|lines|)] == old(lines)
        invariant forall j | old(|lines|) <= j < |lines| :: fresh(lines[j])
      {
        ghost var before := lines;
        ghost var added := VisitLineEntry(entries, i, known, names, accepts, start);
        forall j | old(|lines|) <= j < |lines| ensures fresh(lines[j]) {
          if j >= |before| {
            assert lines[j] in added;
          } else {
            assert lines[j] == before[j];
          }
        }
      }
      assert entries[..|entries|] == entries;
    }

    /**
      The state of ProcessNewFieldLines after visiting `i` of the children
      `entries`: the records and the node's children are what reconciling the
      visited children gives, the records added since position `start` are
      adopted from their nodes, and the children still to visit are unchanged.
    */
    ghost predicate LinePass(entries: seq<Var>, i: nat, known: seq<Var>, names: seq<seq<string>>, accepts: set<Var>, start: nat)
      reads this`lines, linesList`children, LineNodes(lines), Below(LineNodes(lines))
      reads entries, Below(entries)
    {
      && LinesReconciled(entries, i, known, accepts)
      && NewLinesAdopted(start)
      && Unvisited(entries, i, names)
    }

    /** The records and the node's children are what reconciling the first `i` children gives. */
    ghost predicate LinesReconciled(entries: seq<Var>, i: nat, known: seq<Var>, accepts: set<Var>)
      reads this`lines, linesList`children
    {
      && i <= |entries| && linesList !in entries
      && LineNodes(lines) == known + Adopted(known, entries[..i], accepts)
      && linesList.children == Without(entries, Dropped(known, entries[..i], accepts))
    }

    /** The records from position `start` on are adopted from nodes other than the lines node. */
    ghost predicate NewLinesAdopted(start: nat)
      reads this`lines, LineNodes(lines), Below(LineNodes(lines))
    {
      && start <= |lines|
      && forall j | start <= j < |lines| ::
           BelowCovers(LineNodes(lines), j); lines[j].list != linesList && lines[j].AdoptedFrom()
    }

    lemma BeginLinePass(entries: seq<Var>) returns (names: seq<seq<string>>, accepts: set<Var>)
      requires entries == linesList.children && linesList !in entries
      ensures |names| == |entries|
      ensures accepts == Adoptable(entries, LineFields) == AcceptedBy(entries, names, LineFields)
      ensures forall a, b | 0 <= a < |entries| && 0 <= b < |entries| && entries[a] == entries[b] :: names[a] == names[b]
      ensures LinePass(entries, 0, LineNodes(lines), names, accepts, |lines|)
    {
      names := ChildNames(entries);
      accepts := AcceptedBy(entries, names, LineFields);
      assert Dropped(LineNodes(lines), entries[..0], accepts) == {};
      WithoutNothing(entries, {});
    }

    /** Whether some record is bound to `node`, by a scan of the records. */
    method HasLineFor(node: Var) returns (found: bool)
      ensures found <==> node in LineNodes(lines)
    {
      found := false;
      var j := 0;
      while !found && j < |lines|
        invariant 0 <= j <= |lines|
        invariant found <==> node in LineNodes(lines)[..j]
      {
        assert LineNodes(lines)[..j + 1] == LineNodes(lines)[..j] + [lines[j].list];
        found := lines[j].list == node;
        j := j + 1;
      }
      assert !found ==> LineNodes(lines)[..j] == LineNodes(lines);
    }

    /** One child visited by ProcessNewFieldLines: looked up among the records, then adopted or dropped. */
    method VisitLineEntry(entries: seq<Var>, i: nat, ghost known: seq<Var>, ghost names: seq<seq<string>>, ghost accepts: set<Var>, ghost start: nat)
      returns (ghost added: seq<FieldLine>)
      requires i < |entries| && LinePass(entries, i, known, names, accepts, start)
      requires forall a, b | 0 <= a < |entries| && 0 <= b < |entries| && entries[a] == entries[b] :: names[a] == names[b]
      requires accepts == AcceptedBy(entries, names, LineFields)
      modifies this`lines, linesList`children
      ensures LinePass(entries, i + 1, known, names, accepts, start)
      ensures lines == old(lines) + added && forall r | r in added :: fresh(r)
    {
      var found := HasLineFor(entries[i]);
      if found {
        SkipKnownLine(entries, i, known, names, accepts, start);
        added := [];
      } else {
        added := AdoptOrDropLine(entries, i, known, names, accepts, start);
      }
    }

    /** A child no record is bound to: adopted as a new record, or dropped. */
    method AdoptOrDropLine(entries: seq<Var>, i: nat, ghost known: seq<Var>, ghost names: seq<seq<string>>, ghost accepts: set<Var>, ghost start: nat)
      returns (ghost added: seq<FieldLine>)
      requires i < |entries| && LinePass(entries, i, known, names, accepts, start)
      requires forall a, b | 0 <= a < |entries| && 0 <= b < |entries| && entries[a] == entries[b] :: names[a] == names[b]
      requires accepts == AcceptedBy(entries, names, LineFields)
      requires entries[i] !in LineNodes(lines)
      modifies this`lines, linesList`children
      ensures LinePass(entries, i + 1, known, names, accepts, start)
      ensures lines == old(lines) + added && forall r | r in added :: fresh(r)
    {
      var line := FieldLine.FromVarList(entries[i]);
      assert LinePass(entries, i, known, names, accepts, start);
      if line != null {
        AddAdoptedLine(entries, i, known, names, accepts, start, line);
        added := [line];
      } else {
        DropLineEntry(entries, i, known, names, accepts, start);
        added := [];
      }
    }

    /** A child some record is bound to is passed over. */
    lemma SkipKnownLine(entries: seq<Var>, i: nat, known: seq<Var>, names: seq<seq<string>>, accepts: set<Var>, start: nat)
      requires i < |entries| && LinePass(entries, i, known, names, accepts, start)
      requires entries[i] in LineNodes(lines)
      ensures LinePass(entries, i + 1, known, names, accepts, start)
    {
      ReconcileStep(known, entries, accepts, i);
    }

    /** A child no record is bound to, and whose children conform, becomes the node of a new record. */
    method AddAdoptedLine(entries: seq<Var>, i: nat, ghost known: seq<Var>, ghost names: seq<seq<string>>, ghost accepts: set<Var>, ghost start: nat, line: FieldLine)
      requires i < |entries| && LinePass(entries, i, known, names, accepts, start)
      requires forall a, b | 0 <= a < |entries| && 0 <= b < |entries| && entries[a] == entries[b] :: names[a] == names[b]
      requires accepts == AcceptedBy(entries, names, LineFields)
      requires entries[i] !in LineNodes(lines)
      requires line.list == entries[i] && line.AdoptedFrom()
      modifies this`lines
      ensures lines == old(lines) + [line]
      ensures LinePass(entries, i + 1, known, names, accepts, start)
    {
      ReconcileStep(known, entries, accepts, i);
      AcceptedByAt(entries, names, LineFields, i);
      assert LineNodes(lines + [line]) == LineNodes(lines) + [line.list];
      AppendLine(start, line);
    }

    /** A record adopted from a node other than the lines node is appended. */
    method AppendLine(ghost start: nat, line: FieldLine)
      requires NewLinesAdopted(start)
      requires line.list != linesList && line.AdoptedFrom()
      modifies this`lines
      ensures lines == old(lines) + [line]
      ensures NewLinesAdopted(start)
    {
      ghost var prev := lines;
      lines := lines + [line];
      forall j | start <= j < |lines| ensures lines[j].list != linesList && lines[j].AdoptedFrom() {
        if j < |prev| {
          assert lines[j] == prev[j];
        }
      }
    }

    /** A child no record is bound to, and whose children do not conform, is taken out of the lines node. */
    method DropLineEntry(entries: seq<Var>, i: nat, ghost known: seq<Var>, ghost names: seq<seq<string>>, ghost accepts: set<Var>, ghost start: nat)
      requires i < |entries| && LinePass(entries, i, known, names, accepts, start)
      requires forall a, b | 0 <= a < |entries| && 0 <= b < |entries| && entries[a] == entries[b] :: names[a] == names[b]
      requires accepts == AcceptedBy(entries, names, LineFields)
      requires entries[i] !in LineNodes(lines)
      requires Adopt(LineFields, Names(entries[i].children)).None?
      modifies linesList`children
      ensures LinePass(entries, i + 1, known, names, accepts, start)
    {
      ReconcileStep(known, entries, accepts, i);
      AcceptedByAt(entries, names, LineFields, i);
      ghost var before := seq(|entries|, k requires 0 <= k < |entries| reads entries => entries[k].children);
      linesList.RemoveChild(entries[i]);
      forall k | i + 1 <= k < |entries| ensures Names(entries[k].children) == names[k] {
        assert entries[k].children == before[k];
      }
    }

    /**
      ProcessNewFieldArcs, run after the settings were read back: each child
      of the arcs node that no record is bound to is adopted as a new record
      when its children conform and supply every field, and taken out of the
      node otherwise (the correction recorded with `Adoption.Adopt`); the
      count becomes the number of records. Records whose node has gone are
      kept. The node must not be its own child.
    */
    method ProcessNewFieldArcs()
      requires arcsList !in arcsList.children
      modifies this`arcs, this`numArcs, arcsList`children
      ensures var known, entries := ArcNodes(old(arcs)), old(arcsList.children);
              var accepts := old(Adoptable(arcsList.children, ArcFields));
              && ArcNodes(arcs) == known + Adopted(known, entries, accepts)
              && arcsList.children == Without(entries, Dropped(known, entries, accepts))
      ensures |arcs| >= old(|arcs|) && arcs[..old(|arcs|)] == old(arcs)
      ensures forall j | old(|arcs|) <= j < |arcs| :: fresh(arcs[j]) && arcs[j].AdoptedFrom() && arcs[j].Complete()
      ensures numArcs == |arcs|
    {
      ghost var known, start := ArcNodes(arcs), |arcs|;
      var entries := arcsList.children;
      ghost var names, accepts := BeginArcPass(entries);
      VisitArcEntries(entries, known, names, accepts, start);
      forall j | start <= j < |arcs| ensures arcs[j].Complete() {
        arcs[j].AdoptedIsComplete();
      }
      numArcs := |arcs|;
    }

    /** The loop of ProcessNewFieldArcs over the children `entries` it started with. */
    method VisitArcEntries(entries: seq<Var>, ghost known: seq<Var>, ghost names: seq<seq<string>>, ghost accepts: set<Var>, ghost start: nat)
      requires ArcPass(entries, 0, known, names, accepts, start)
      requires forall a, b | 0 <= a < |entries| && 0 <= b < |entries| && entries[a] == entries[b] :: names[a] == names[b]
      requires accepts == AcceptedBy(entries, names, ArcFields)
      modifies this`arcs, arcsList`children
      ensures ArcNodes(arcs) == known + Adopted(known, entries, accepts)
      ensures arcsList.children == Without(entries, Dropped(known, entries, accepts))
      ensures |arcs| >= old(|arcs|) && arcs[..old(|arcs|)] == old(arcs)
      ensures forall j | old(|arcs|) <= j < |arcs| :: fresh(arcs[j]) && arcs[j].AdoptedFrom()
    {
      for i := 0 to |entries|
        invariant ArcPass(entries, i, known, names, accepts, start)
        invariant |arcs| >= old(|arcs|) && arcs[..old(|arcs|)] == old(arcs)
        invariant forall j | old(|arcs|) <= j < |arcs| :: fresh(arcs[j])
      {
        ghost var before := arcs;
        ghost var added := VisitArcEntry(entries, i, known, names, accepts, start);
        forall j | old(|arcs|) <= j < |arcs| ensures fresh(arcs[j]) {
          if j >= |before| {
            assert arcs[j] in added;
          } else {
            assert arcs[j] == before[j];
          }
        }
      }
      assert entries[..|entries|] == entries;
    }

    /**
      The state of ProcessNewFieldArcs after visiting `i` of the children
      `entries`: the records and the node's children are what reconciling the
      visited children gives, the records added since position `start` are
      adopted from their nodes, and the children still to visit are unchanged.
    */
    ghost predicate ArcPass(entries: seq<Var>, i: nat, known: seq<Var>, names: seq<seq<string>>, accepts: set<Var>, start: nat)
      reads this`arcs, arcsList`children, ArcNodes(arcs), Below(ArcNodes(arcs))
      reads entries, Below(entries)
    {
      && ArcsReconciled(entries, i, known, accepts)
      && NewArcsAdopted(start)
      && Unvisited(entries, i, names)
    }

    /** The records and the node's children are what reconciling the first `i` children gives. */
    ghost predicate ArcsReconciled(entries: seq<Var>, i: nat, known: seq<Var>, accepts: set<Var>)
      reads this`arcs, arcsList`children
    {
      && i <= |entries| && arcsList !in entries
      && ArcNodes(arcs) == known + Adopted(known, entries[..i], accepts)
      && arcsList.children == Without(entries, Dropped(known, entries[..i], accepts))
    }

    /** The records from position `start` on are adopted from nodes other than the arcs node. */
    ghost predicate NewArcsAdopted(start: nat)
      reads this`arcs, ArcNodes(arcs), Below(ArcNodes(arcs))
    {
      && start <= |arcs|
      && forall j | start <= j < |arcs| ::
           BelowCovers(ArcNodes(arcs), j); arcs[j].list != arcsList && arcs[j].AdoptedFrom()
    }

    lemma BeginArcPass(entries: seq<Var>) returns (names: seq<seq<string>>, accepts: set<Var>)
      requires entries == arcsList.children && arcsList !in entries
      ensures |names| == |entries|
      ensures accepts == Adoptable(entries, ArcFields) == AcceptedBy(entries, names, ArcFields)
      ensures forall a, b | 0 <= a < |entries| && 0 <= b < |entries| && entries[a] == entries[b] :: names[a] == names[b]
      ensures ArcPass(entries, 0, ArcNodes(arcs), names, accepts, |arcs|)
    {
      names := ChildNames(entries);
      accepts := AcceptedBy(entries, names, ArcFields);
      assert Dropped(ArcNodes(arcs), entries[..0], accepts) == {};
      WithoutNothing(entries, {});
    }

    /** Whether some record is bound to `node`, by a scan of the records. */
    method HasArcFor(node: Var) returns (found: bool)
      ensures found <==> node in ArcNodes(arcs)
    {
      found := false;
      var j := 0;
      while !found && j < |arcs|
        invariant 0 <= j <= |arcs|
        invariant found <==> node in ArcNodes(arcs)[..j]
      {
        assert ArcNodes(arcs)[..j + 1] == ArcNodes(arcs)[..j] + [arcs[j].list];
        found := arcs[j].list == node;
        j := j + 1;
      }
      assert !found ==> ArcNodes(arcs)[..j] == ArcNodes(arcs);
    }

    /** One child visited by ProcessNewFieldArcs: looked up among the records, then adopted or dropped. */
    method VisitArcEntry(entries: seq<Var>, i: nat, ghost known: seq<Var>, ghost names: seq<seq<string>>, ghost accepts: set<Var>, ghost start: nat)
      returns (ghost added: seq<FieldCircularArc>)
      requires i < |entries| && ArcPass(entries, i, known, names, accepts, start)
      requires forall a, b | 0 <= a < |entries| && 0 <= b < |entries| && entries[a] == entries[b] :: names[a] == names[b]
      requires accepts == AcceptedBy(entries, names, ArcFields)
      modifies this`arcs, arcsList`children
      ensures ArcPass(entries, i + 1, known, names, accepts, start)
      ensures arcs == old(arcs) + added && forall r | r in added :: fresh(r)
    {
      var found := HasArcFor(entries[i]);
      if found {
        SkipKnownArc(entries, i, known, names, accepts, start);
        added := [];
      } else {
        added := AdoptOrDropArc(entries, i, known, names, accepts, start);
      }
    }

    /** A child no record is bound to: adopted as a new record, or dropped. */
    method AdoptOrDropArc(entries: seq<Var>, i: nat, ghost known: seq<Var>, ghost names: seq<seq<string>>, ghost accepts: set<Var>, ghost start: nat)
      returns (ghost added: seq<FieldCircularArc>)
      requires i < |entries| && ArcPass(entries, i, known, names, accepts, start)
      requires forall a, b | 0 <= a < |entries| && 0 <= b < |entries| && entries[a] == entries[b] :: names[a] == names[b]
      requires accepts == AcceptedBy(entries, names, ArcFields)
      requires entries[i] !in ArcNodes(arcs)
      modifies this`arcs, arcsList`children
      ensures ArcPass(entries, i + 1, known, names, accepts, start)
      ensures arcs == old(arcs) + added && forall r | r in added :: fresh(r)
    {
      var arc := FieldCircularArc.FromVarList(entries[i]);
      assert ArcPass(entries, i, known, names, accepts, start);
      if arc != null {
        AddAdoptedArc(entries, i, known, names, accepts, start, arc);
        added := [arc];
      } else {
        DropArcEntry(entries, i, known, names, accepts, start);
        added := [];
      }
    }

    /** A child some record is bound to is passed over. */
    lemma SkipKnownArc(entries: seq<Var>, i: nat, known: seq<Var>, names: seq<seq<string>>, accepts: set<Var>, start: nat)
      requires i < |entries| && ArcPass(entries, i, known, names, accepts, start)
      requires entries[i] in ArcNodes(arcs)
      ensures ArcPass(entries, i + 1, known, names, accepts, start)
    {
      ReconcileStep(known, entries, accepts, i);
    }

    /** A child no record is bound to, and whose children conform, becomes the node of a new record. */
    method AddAdoptedArc(entries: seq<Var>, i: nat, ghost known: seq<Var>, ghost names: seq<seq<string>>, ghost accepts: set<Var>, ghost start: nat, arc: FieldCircularArc)
      requires i < |entries| && ArcPass(entries, i, known, names, accepts, start)
      requires forall a, b | 0 <= a < |entries| && 0 <= b < |entries| && entries[a] == entries[b] :: names[a] == names[b]
      requires accepts == AcceptedBy(entries, names, ArcFields)
      requires entries[i] !in ArcNodes(arcs)
      requires arc.list == entries[i] && arc.AdoptedFrom()
      modifies this`arcs
      ensures arcs == old(arcs) + [arc]
      ensures ArcPass(entries, i + 1, known, names, accepts, start)
    {
      ReconcileStep(known, entries, accepts, i);
      AcceptedByAt(entries, names, ArcFields, i);
      assert ArcNodes(arcs + [arc]) == ArcNodes(arcs) + [arc.list];
      AppendArc(start, arc);
    }

    /** A record adopted from a node other than the arcs node is appended. */
    method AppendArc(ghost start: nat, arc: FieldCircularArc)
      requires NewArcsAdopted(start)
      requires arc.list != arcsList && arc.AdoptedFrom()
      modifies this`arcs
      ensures arcs == old(arcs) + [arc]
      ensures NewArcsAdopted(start)
    {
      ghost var prev := arcs;
      arcs := arcs + [arc];
      forall j | start <= j < |arcs| ensures arcs[j].list != arcsList && arcs[j].AdoptedFrom() {
        if j < |prev| {
          assert arcs[j] == prev[j];
        }
      }
    }

    /** A child no record is bound to, and whose children do not conform, is taken out of the arcs node. */
    method DropArcEntry(entries: seq<Var>, i: nat, ghost known: seq<Var>, ghost names: seq<seq<string>>, ghost accepts: set<Var>, ghost start: nat)
      requires i < |entries| && ArcPass(entries, i, known, names, accepts, start)
      requires forall a, b | 0 <= a < |entries| && 0 <= b < |entries| && entries[a] == entries[b] :: names[a] == names[b]
      requires accepts == AcceptedBy(entries, names, ArcFields)
      requires entries[i] !in ArcNodes(arcs)
      requires Adopt(ArcFields, Names(entries[i].children)).None?
      modifies arcsList`children
      ensures ArcPass(entries, i + 1, known, names, accepts, start)
    {
      ReconcileStep(known, entries, accepts, i);
      AcceptedByAt(entries, names, ArcFields, i);
      ghost var before := seq(|entries|, k requires 0 <= k < |entries| reads entries => entries[k].children);
      arcsList.RemoveChild(entries[i]);
      forall k | i + 1 <= k < |entries| ensures Names(entries[k].children) == names[k] {
        assert entries[k].children == before[k];
      }
    }
  }
}
