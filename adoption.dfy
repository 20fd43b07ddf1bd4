/**
  The schema check that decides whether an existing list node can be adopted
  as a line or an arc record, stated over the names of the node's children.
*/
module Adoption {
  import opened Wrappers
  import opened Seqs

  /** The leaf names of a line record, in the order a new line adds them. */
  const LineFields: seq<string> := ["Name", "Type", "P1.x", "P1.y", "P2.x", "P2.y", "Line thickness"]

  /** The leaf names of an arc record, in the order a new arc adds them. */
  const ArcFields: seq<string> :=
    ["Name", "Type", "Center.x", "Center.y", "Radius", "Start angle", "End angle", "Line thickness"]

  /** The leaf names of an arc made by the name-only arc constructor: its type leaf is "type". */
  const DefaultArcLeafNames: seq<string> :=
    ["Name", "type", "Center.x", "Center.y", "Radius", "Start angle", "End angle", "Line thickness"]

  /** The position of the last occurrence of `f`: a later child with the same name wins. */
  function LastIndexOf(names: seq<string>, f: string): (r: Option<nat>)
    ensures r.None? <==> f !in names
    ensures r.Some? ==> r.value < |names| && names[r.value] == f
    ensures r.Some? ==> forall j | r.value < j < |names| :: names[j] != f
  {
    if names == [] then None
    else
      var front := names[..|names| - 1];
      assert names == front + [names[|names| - 1]];
      if names[|names| - 1] == f then Some(|names| - 1) else LastIndexOf(front, f)
  }

  /**
    The field a child's name selects: the first field of that name, as a
    chain of name comparisons taken in field order finds it.
  */
  function FieldIndex(schema: seq<string>, f: string): (r: Option<nat>)
    ensures r.None? <==> f !in schema
    ensures r.Some? ==> r.value < |schema| && schema[r.value] == f
    ensures r.Some? ==> forall i | 0 <= i < r.value :: schema[i] != f
  {
    if schema == [] then None
    else if schema[0] == f then Some(0)
    else
      var rest := FieldIndex(schema[1..], f);
      assert schema == [schema[0]] + schema[1..];
      if rest.None? then None else Some(rest.value + 1)
  }

  /** Exactly as many children as the schema has fields, each named after one of them. */
  predicate Conforms(schema: seq<string>, names: seq<string>) {
    |names| == |schema| && forall i | 0 <= i < |names| :: names[i] in schema
  }

  /** For each schema field, the child that supplies it, if any. */
  function Slots(schema: seq<string>, names: seq<string>): seq<Option<nat>> {
    seq(|schema|, k requires 0 <= k < |schema| => LastIndexOf(names, schema[k]))
  }

  /** Every schema field is named by some child. */
  predicate Supplies(schema: seq<string>, names: seq<string>) {
    forall k | 0 <= k < |schema| :: schema[k] in names
  }

  /**
    The decision of FromVarList as written: the record's slots when the
    children conform, "no record" otherwise. Duplicate names are not
    rejected; they leave a field unset.
  */
  function AdoptAsWritten(schema: seq<string>, names: seq<string>): Option<seq<Option<nat>>> {
    if Conforms(schema, names) then Some(Slots(schema, names)) else None
  }

  /**
    The adoption decision the rest of the model uses: as written, except that
    a node leaving some field without a child is refused as well, so that an
    adopted record holds every leaf.
  */
  function Adopt(schema: seq<string>, names: seq<string>): Option<seq<Option<nat>>> {
    if Conforms(schema, names) && Supplies(schema, names) then Some(Slots(schema, names)) else None
  }

  /** An adopted node supplies every field, each from a child of that field's name. */
  lemma AdoptFillsEveryField(schema: seq<string>, names: seq<string>)
    ensures var r := Adopt(schema, names);
            r.Some? ==> |r.value| == |schema| && forall k | 0 <= k < |schema| ::
              r.value[k].Some? && r.value[k].value < |names| && names[r.value[k].value] == schema[k]
  {
  }

  /**
    The correction refuses exactly the nodes that the written decision accepts
    with some field left unset, and otherwise decides the same.
  */
  lemma AdoptGuardsAsWritten(schema: seq<string>, names: seq<string>)
    ensures var w := AdoptAsWritten(schema, names);
            Adopt(schema, names) == if w.Some? && forall k | 0 <= k < |w.value| :: w.value[k].Some? then w else None
  {
    var w := AdoptAsWritten(schema, names);
    if w.Some? && !Supplies(schema, names) {
      var k :| 0 <= k < |schema| && schema[k] !in names;
      assert w.value[k].None?;
    }
  }

  /** The nodes whose children, named as `names` says, pass the schema. */
  function AcceptedBy<T>(cs: seq<T>, names: seq<seq<string>>, schema: seq<string>): set<T>
    requires |names| == |cs|
  {
    if cs == [] then {}
    else
      var n := |cs| - 1;
      AcceptedBy(cs[..n], names[..n], schema) + (if Adopt(schema, names[n]).Some? then {cs[n]} else {})
  }

  /** A node is accepted when one of its occurrences has children that pass the schema. */
  lemma {:induction false} AcceptedByMembers<T>(cs: seq<T>, names: seq<seq<string>>, schema: seq<string>, x: T)
    requires |names| == |cs|
    ensures x in AcceptedBy(cs, names, schema) <==> exists j | 0 <= j < |cs| :: cs[j] == x && Adopt(schema, names[j]).Some?
  {
    if cs != [] {
      var n := |cs| - 1;
      AcceptedByMembers(cs[..n], names[..n], schema, x);
      if x in AcceptedBy(cs, names, schema) && x !in AcceptedBy(cs[..n], names[..n], schema) {
        assert cs[n] == x && Adopt(schema, names[n]).Some?;
      }
      if exists j | 0 <= j < |cs| :: cs[j] == x && Adopt(schema, names[j]).Some? {
        var j :| 0 <= j < |cs| && cs[j] == x && Adopt(schema, names[j]).Some?;
        if j < n {
          assert cs[..n][j] == x && names[..n][j] == names[j];
        }
      }
    }
  }

  /** When every occurrence of a node has the same children, its acceptance is decided by any one of them. */
  lemma AcceptedByAt<T>(cs: seq<T>, names: seq<seq<string>>, schema: seq<string>, i: nat)
    requires |names| == |cs| && i < |cs|
    requires forall a, b | 0 <= a < |cs| && 0 <= b < |cs| && cs[a] == cs[b] :: names[a] == names[b]
    ensures cs[i] in AcceptedBy(cs, names, schema) <==> Adopt(schema, names[i]).Some?
  {
    AcceptedByMembers(cs, names, schema, cs[i]);
  }

  /** A node whose children carry exactly the schema's names, each once, is adopted with slot k at child k. */
  lemma ReadoptDistinct(schema: seq<string>)
    requires Distinct(schema)
    ensures Adopt(schema, schema) == Some(seq(|schema|, k requires 0 <= k < |schema| => Some(k)))
  {
    var slots := Slots(schema, schema);
    assert Conforms(schema, schema);
    assert Supplies(schema, schema);
    forall k | 0 <= k < |schema| ensures slots[k] == Some(k) {
      assert schema[k] in schema;
    }
    assert slots == seq(|schema|, k requires 0 <= k < |schema| => Some(k));
  }

  /** No two line fields share a name. */
  lemma LineFieldsDistinct()
    ensures Distinct(LineFields)
  {
  }

  /** No two arc fields share a name. */
  lemma ArcFieldsDistinct()
    ensures Distinct(ArcFields)
  {
  }

  /** The node of a newly built line is adopted again, each field taken from the leaf it was built with. */
  lemma ReadoptNewLine()
    ensures Adopt(LineFields, LineFields) == Some([Some(0), Some(1), Some(2), Some(3), Some(4), Some(5), Some(6)])
  {
    LineFieldsDistinct();
    ReadoptDistinct(LineFields);
    assert seq(7, k requires 0 <= k < 7 => Some(k)) == [Some(0), Some(1), Some(2), Some(3), Some(4), Some(5), Some(6)];
  }

  /** The node of an arc built from explicit values is adopted again. */
  lemma ReadoptArcWithValues()
    ensures Adopt(ArcFields, ArcFields) == Some([Some(0), Some(1), Some(2), Some(3), Some(4), Some(5), Some(6), Some(7)])
  {
    ArcFieldsDistinct();
    ReadoptDistinct(ArcFields);
    assert seq(8, k requires 0 <= k < 8 => Some(k)) == [Some(0), Some(1), Some(2), Some(3), Some(4), Some(5), Some(6), Some(7)];
  }

  /** The node of an arc built by the name-only constructor can never be adopted: its "type" leaf is not "Type". */
  lemma NamedArcNotReadoptable()
    ensures Adopt(ArcFields, DefaultArcLeafNames) == None
  {
    assert DefaultArcLeafNames[1] !in ArcFields;
  }

  /**
    As written, a repeated name is accepted: the later child wins and the
    field it displaced stays unset, so the line record holds a null leaf.
    The corrected decision refuses the node.
  */
  lemma DuplicateNameAccepted()
    ensures var names := ["Name", "Name", "P1.x", "P1.y", "P2.x", "P2.y", "Line thickness"];
            var r := AdoptAsWritten(LineFields, names);
            r.Some? && r.value[0] == Some(1) && r.value[1] == None && Adopt(LineFields, names) == None
  {
    var names := ["Name", "Name", "P1.x", "P1.y", "P2.x", "P2.y", "Line thickness"];
    assert Conforms(LineFields, names);
    assert LineFields[0] == "Name" && LineFields[1] == "Type";
    assert "Type" !in names;
    var first := LastIndexOf(names, "Name");
    assert names[1] == "Name";
    assert first == Some(1);
    assert !Supplies(LineFields, names);
  }

  /**
    As written, an arc node whose type child is replaced by a second Name
    child is accepted with its type slot unset; the adopting arc constructor
    then fills the type enumeration through that unset reference. The
    corrected decision refuses the node.
  */
  lemma ArcWithoutTypeAccepted()
    ensures var names := ["Name", "Name", "Center.x", "Center.y", "Radius", "Start angle", "End angle", "Line thickness"];
            var r := AdoptAsWritten(ArcFields, names);
            r.Some? && r.value[1] == None && Adopt(ArcFields, names) == None
  {
    var names := ["Name", "Name", "Center.x", "Center.y", "Radius", "Start angle", "End angle", "Line thickness"];
    assert Conforms(ArcFields, names);
    assert ArcFields[1] == "Type" && "Type" !in names;
    assert !Supplies(ArcFields, names);
  }

  /** A line node lacking its thickness leaf (six children) is rejected. */
  lemma MissingFieldRejected()
    ensures Adopt(LineFields, LineFields[..6]) == None
  {
  }

  /** A node with an unexpected child name is rejected even when the count is right. */
  lemma UnexpectedNameRejected(names: seq<string>, i: nat)
    requires i < |names| && names[i] !in LineFields
    ensures Adopt(LineFields, names) == None
  {
  }
}
