/**
  The line and arc records. A record holds references to its leaves in the
  variable tree and to the list node that groups them. The adopting
  constructor takes whatever references the scan of a node found, so the
  references are nullable; the corrected adoption only passes it nodes that
  supply every field.
*/
module FieldMarkings {
  import opened Wrappers
  import opened Seqs
  import opened VarTree
  import opened Adoption
  import opened Geometry

  /** The child a schema slot points to; null for an unset slot. */
  function Pick1(cs: seq<Var>, slot: Option<nat>): Var? {
    if slot.Some? && slot.value < |cs| then cs[slot.value] else null
  }

  /** The children that a sequence of schema slots points to. */
  function Pick(cs: seq<Var>, slots: seq<Option<nat>>): seq<Var?> {
    seq(|slots|, k requires 0 <= k < |slots| => Pick1(cs, slots[k]))
  }

  /** The names of each node's children. */
  ghost function ChildNames(cs: seq<Var>): (r: seq<seq<string>>)
    reads cs`children, Below(cs)`name
    ensures |r| == |cs| && forall k | 0 <= k < |cs| :: r[k] == Names(cs[k].children)
  {
    if cs == [] then [] else ChildNames(cs[..|cs| - 1]) + [Names(cs[|cs| - 1].children)]
  }

  /** The nodes among `cs` whose children pass the schema: the ones FromVarList adopts. */
  ghost function Adoptable(cs: seq<Var>, schema: seq<string>): set<Var>
    reads cs`children, Below(cs)`name
  {
    AcceptedBy(cs, ChildNames(cs), schema)
  }

  /** A node is adoptable exactly when it is among the nodes and its children pass the schema. */
  lemma AdoptableIff(cs: seq<Var>, schema: seq<string>, c: Var)
    ensures c in Adoptable(cs, schema) <==> c in cs && Adopt(schema, Names(c.children)).Some?
  {
    var names := ChildNames(cs);
    AcceptedByMembers(cs, names, schema, c);
  }

  /** The record's fields after taking `e` as the field named `f`: that field (and only that one) is `e`. */
  function Take(fields: seq<Var?>, schema: seq<string>, f: string, e: Var): (r: seq<Var?>)
    requires |fields| == |schema|
  {
    seq(|schema|, j requires 0 <= j < |schema| => if schema[j] == f then e else fields[j])
  }

  /** When no other field shares field `j`'s name, taking `e` as field `j` replaces exactly that field. */
  lemma TakeAt(fields: seq<Var?>, schema: seq<string>, j: nat, e: Var)
    requires |fields| == |schema| && j < |schema|
    requires forall i | 0 <= i < |schema| && i != j :: schema[i] != schema[j]
    ensures Take(fields, schema, schema[j], e) == fields[j := e]
  {
  }

  /** One more child visited: it becomes the child supplying the field of its own name, the others stay. */
  lemma SlotsStep(cs: seq<Var>, names: seq<string>, schema: seq<string>, i: nat)
    requires i < |names| == |cs|
    ensures Pick(cs, Slots(schema, names[..i + 1])) == Take(Pick(cs, Slots(schema, names[..i])), schema, names[i], cs[i])
  {
    assert names[..i + 1][..i] == names[..i];
  }

  /** The children an accepted node's slots point to are all set. */
  lemma AdoptedFieldsSet(cs: seq<Var>, schema: seq<string>)
    requires Adopt(schema, Names(cs)).Some?
    ensures var fields := Pick(cs, Adopt(schema, Names(cs)).value);
            |fields| == |schema| && forall k | 0 <= k < |schema| :: fields[k] != null
  {
    AdoptFillsEveryField(schema, Names(cs));
  }

  /** The leaves a sequence of leaf references holds: the set ones. */
  function Held(vs: seq<Var?>): set<Var> {
    set v: Var | v in vs
  }

  /**
    removeChild of each leaf reference in turn; an unset reference matches no
    child. The children lose those leaves and keep their order.
  */
  method DetachAll(l: Var, vs: seq<Var?>)
    modifies l`children
    ensures l.children == Without(old(l.children), Held(vs))
  {
    ghost var start := l.children;
    WithoutNothing(start, {});
    assert Held(vs[..0]) == {};
    for i := 0 to |vs|
      invariant l.children == Without(start, Held(vs[..i]))
    {
      assert Held(vs[..i + 1]) == Held(vs[..i]) + Held([vs[i]]);
      WithoutTwice(start, Held(vs[..i]), Held([vs[i]]));
      if vs[i] != null {
        assert Held([vs[i]]) == {vs[i]};
        l.RemoveChild(vs[i]);
      } else {
        assert Held([vs[i]]) == {};
        WithoutNothing(l.children, {});
      }
    }
    assert vs[..|vs|] == vs;
  }

  /**
    The FromVarList loop over a node's children: with as many children as the
    schema has fields, each child is looked up among the field names (the
    chain of name comparisons, in field order) and becomes the leaf of that
    field; a child named after no field refuses the node. A field that no
    child supplied refuses the node too (the corrected decision `Adopt`).
  */
  method AdoptChildren(cs: seq<Var>, schema: seq<string>) returns (r: Option<seq<Var?>>)
    requires Distinct(schema)
    ensures r.None? <==> Adopt(schema, Names(cs)).None?
    ensures r.Some? ==> r.value == Pick(cs, Adopt(schema, Names(cs)).value)
    ensures r.Some? ==> |r.value| == |schema| && forall k | 0 <= k < |schema| :: r.value[k] != null
  {
    if |cs| != |schema| {
      return None;
    }
    ghost var names := Names(cs);
    var fields: seq<Var?> := seq(|schema|, _ => null);
    for i := 0 to |cs|
      invariant forall j | 0 <= j < i :: names[j] in schema
      invariant fields == Pick(cs, Slots(schema, names[..i]))
    {
      SlotsStep(cs, names, schema, i);
      var slot := FieldIndex(schema, cs[i].name);
      if slot.None? {
        return None;
      }
      TakeAt(fields, schema, slot.value, cs[i]);
      fields := fields[slot.value := cs[i]];
    }
    assert names[..|cs|] == names;
    assert Conforms(schema, names);
    if null in fields {
      var k :| 0 <= k < |fields| && fields[k] == null;
      assert schema[k] !in names;
      return None;
    }
    assert Supplies(schema, names) by {
      forall k | 0 <= k < |schema| ensures schema[k] in names {
        assert fields[k] != null;
      }
    }
    return Some(fields);
  }

  /**
    A new list node named `nodeName` holding new leaves, added one after the
    other with the given names, string values and double values.
  */
  method NewNode(nodeName: string, leafNames: seq<string>, texts: seq<string>, numbers: seq<real>) returns (l: Var)
    requires |texts| == |leafNames| && |numbers| == |leafNames|
    ensures fresh(l) && l.name == nodeName
    ensures |l.children| == |leafNames| && Names(l.children) == leafNames
    ensures forall i | 0 <= i < |leafNames| :: fresh(l.children[i]) && l.children[i] != l
    ensures forall i | 0 <= i < |leafNames| :: l.children[i].text == texts[i] && l.children[i].number == numbers[i]
  {
    l := new Var.List(nodeName);
    for i := 0 to |leafNames|
      invariant fresh(l) && l.name == nodeName && |l.children| == i
      invariant forall j | 0 <= j < i :: fresh(l.children[j]) && l.children[j] != l
      invariant forall j | 0 <= j < i :: l.children[j].name == leafNames[j]
      invariant forall j | 0 <= j < i :: l.children[j].text == texts[j] && l.children[j].number == numbers[j]
    {
      var v := new Var.Leaf(leafNames[i], texts[i], numbers[i]);
      l.AddChild(v);
    }
  }

  class FieldLine {
    const name: Var?
    const kind: Var?
    const p1x: Var?
    const p1y: Var?
    const p2x: Var?
    const p2y: Var?
    const thickness: Var?
    /** The list node the record is bound to. */
    const list: Var

    /** The leaf references, in the order of LineFields. */
    function Fields(): seq<Var?> {
      [name, kind, p1x, p1y, p2x, p2y, thickness]
    }

    /** Every leaf reference is set. */
    predicate Complete() {
      name != null && kind != null && p1x != null && p1y != null && p2x != null && p2y != null && thickness != null
    }

    function Leaves(): seq<Var>
      requires Complete()
    {
      [name, kind, p1x, p1y, p2x, p2y, thickness]
    }

    ghost function Repr(): set<object>
      requires Complete()
    {
      {list, name, kind, p1x, p1y, p2x, p2y, thickness}
    }

    /** The current leaf values. */
    function Values(): LineValues
      requires Complete()
      reads name`text, kind`text, p1x`number, p1y`number, p2x`number, p2y`number, thickness`number
    {
      LineValues(name.text, kind.text, p1x.number, p1y.number, p2x.number, p2y.number, thickness.number)
    }

    /** The node holds exactly the record's leaves, in field order, with the given names. */
    ghost predicate Shaped(leafNames: seq<string>)
      reads list`children, Held(Fields())`name
    {
      Complete() && list.children == Leaves() && Names(Leaves()) == leafNames
    }

    /** What the name-only constructor leaves: a well-formed line in a node of that name, with default values. */
    ghost predicate Blank(markingName: string)
      reads list`children, list`name, Held(Fields())`name, Held(Fields())`text, Held(Fields())`number
    {
      Shaped(LineFields) && list.name == markingName && Values() == BlankLine(markingName)
    }

    /** Shape and values depend only on the node's children and name and on the leaves' names and values: a change of state that leaves those alone keeps both. */
    twostate lemma ShapedKept(leafNames: seq<string>)
      requires old(Shaped(leafNames))
      requires unchanged(list`children, list`name)
      requires forall v | v in Held(Fields()) :: unchanged(v`name, v`text, v`number)
      ensures Shaped(leafNames) && Values() == old(Values())
    {
      var held := Held(Fields());
      assert name in held && kind in held && p1x in held && p1y in held && p2x in held && p2y in held && thickness in held;
    }

    /** Blank depends only on the node's children and name and on the leaves' names and values: a change of state that leaves those alone keeps it. */
    twostate lemma BlankKept(markingName: string)
      requires old(Blank(markingName))
      requires unchanged(list`children, list`name)
      requires forall v | v in Held(Fields()) :: unchanged(v`name, v`text, v`number)
      ensures Blank(markingName)
    {
    }

    /** The record is what adoption makes of its node's children. */
    ghost predicate AdoptedFrom()
      reads list`children, list.children`name
    {
      var slots := Adopt(LineFields, Names(list.children));
      slots.Some? && Fields() == Pick(list.children, slots.value)
    }

    /** A record adopted from its node holds every leaf. */
    lemma AdoptedIsComplete()
      requires AdoptedFrom()
      ensures Complete()
    {
      AdoptedFieldsSet(list.children, LineFields);
      var f := Fields();
      assert f[0] != null && f[1] != null && f[2] != null && f[3] != null && f[4] != null && f[5] != null && f[6] != null;
    }

    /** FieldLine(marking_name): new leaves with default values, in a new node named after the line. */
    constructor Named(markingName: string)
      ensures Complete() && fresh(Repr()) && Shaped(LineFields)
      ensures list.name == markingName
      ensures Values() == BlankLine(markingName)
    {
      var l := NewNode(markingName, LineFields,
        [markingName, "Undefined", "", "", "", "", ""],
        [0.0, 0.0, 0.0, 0.0, 0.0, 0.0, 10.0]);
      name, kind, p1x, p1y, p2x, p2y, thickness, list := l.children[0], l.children[1], l.children[2], l.children[3], l.children[4], l.children[5], l.children[6], l;
      new;
      assert Leaves() == l.children;
    }

    /** FieldLine(marking_name, p1, p2, thickness): like Named, with the given values; the type string is the name. */
    constructor WithValues(markingName: string, p1x: real, p1y: real, p2x: real, p2y: real, thickness: real)
      ensures Complete() && fresh(Repr()) && Shaped(LineFields)
      ensures list.name == markingName
      ensures Values() == LineValues(markingName, markingName, p1x, p1y, p2x, p2y, thickness)
    {
      var l := NewNode(markingName, LineFields,
        [markingName, markingName, "", "", "", "", ""],
        [0.0, 0.0, p1x, p1y, p2x, p2y, thickness]);
      this.name, this.kind, this.p1x, this.p1y, this.p2x, this.p2y, this.thickness, list := l.children[0], l.children[1], l.children[2], l.children[3], l.children[4], l.children[5], l.children[6], l;
      new;
      assert Leaves() == l.children;
    }

    /**
      The copy constructor: new leaves and a new node named after the original's
      name. The type leaf is initialised from the original type leaf's NAME,
      not its value, so a copy of a well-formed line carries the type string "Type".
    */
    constructor Copy(other: FieldLine)
      requires other.Complete()
      ensures Complete() && fresh(Repr()) && Shaped(LineFields)
      ensures list.name == other.name.text
      ensures Values() == other.Values().(kind := other.kind.name)
      ensures other.Shaped(LineFields) ==> Values().kind == "Type"
    {
      var l := NewNode(other.name.text, LineFields,
        [other.name.text, other.kind.name, "", "", "", "", ""],
        [0.0, 0.0, other.p1x.number, other.p1y.number, other.p2x.number, other.p2y.number, other.thickness.number]);
      name, kind, p1x, p1y, p2x, p2y, thickness, list := l.children[0], l.children[1], l.children[2], l.children[3], l.children[4], l.children[5], l.children[6], l;
      new;
      assert Leaves() == l.children;
    }

    /** The adopting constructor: wraps existing leaves and node, creating nothing. */
    constructor Wrap(fields: seq<Var?>, list: Var)
      requires |fields| == 7
      ensures Fields() == fields && this.list == list
    {
      name, kind, p1x, p1y, p2x, p2y, thickness := fields[0], fields[1], fields[2], fields[3], fields[4], fields[5], fields[6];
      this.list := list;
    }

    /**
      FromVarList: adopt a node as a line when it has exactly seven children,
      each named after a line field and every field named; the last child of
      each name supplies that field. Otherwise no record.
    */
    static method FromVarList(list: Var) returns (r: FieldLine?)
      ensures r == null <==> Adopt(LineFields, Names(list.children)).None?
      ensures r != null ==> fresh(r) && r.list == list && r.AdoptedFrom() && r.Complete()
    {
      LineFieldsDistinct();
      var fields := AdoptChildren(list.children, LineFields);
      if fields.None? {
        return null;
      }
      r := new FieldLine.Wrap(fields.value, list);
      r.AdoptedIsComplete();
    }

    /** Rename: the node takes the current value of the Name leaf. */
    method Rename()
      requires name != null
      modifies list`name
      ensures list.name == name.text
    {
      list.name := name.text;
    }

    /** ~FieldLine: every leaf the record holds is taken out of its node, the other children stay in order. */
    method Release()
      modifies list`children
      ensures list.children == Without(old(list.children), Held(Fields()))
    {
      DetachAll(list, [thickness, p2x, p2y, p1x, p1y, name, kind]);
      assert Held([thickness, p2x, p2y, p1x, p1y, name, kind]) == Held(Fields());
    }
  }

  class FieldCircularArc {
    const name: Var?
    const kind: Var?
    const centerX: Var?
    const centerY: Var?
    const radius: Var?
    const a1: Var?
    const a2: Var?
    const thickness: Var?
    /** The list node the record is bound to. */
    const list: Var

    /** The leaf references, in the order of ArcFields. */
    function Fields(): seq<Var?> {
      [name, kind, centerX, centerY, radius, a1, a2, thickness]
    }

    /** Every leaf reference is set. */
    predicate Complete() {
      name != null && kind != null && centerX != null && centerY != null && radius != null && a1 != null && a2 != null && thickness != null
    }

    function Leaves(): seq<Var>
      requires Complete()
    {
      [name, kind, centerX, centerY, radius, a1, a2, thickness]
    }

    ghost function Repr(): set<object>
      requires Complete()
    {
      {list, name, kind, centerX, centerY, radius, a1, a2, thickness}
    }

    /** The current leaf values. */
    function Values(): ArcValues
      requires Complete()
      reads name`text, kind`text, centerX`number, centerY`number, radius`number, a1`number, a2`number, thickness`number
    {
      ArcValues(name.text, kind.text, centerX.number, centerY.number, radius.number, a1.number, a2.number, thickness.number)
    }

    /** The node holds exactly the record's leaves, in field order, with the given names. */
    ghost predicate Shaped(leafNames: seq<string>)
      reads list`children, Held(Fields())`name
    {
      Complete() && list.children == Leaves() && Names(Leaves()) == leafNames
    }

    /**
      What the name-only constructor leaves: a well-formed arc in a node of that
      name, with default values, whose type leaf is named "type".
    */
    ghost predicate Blank(markingName: string)
      reads list`children, list`name, Held(Fields())`name, Held(Fields())`text, Held(Fields())`number
    {
      Shaped(DefaultArcLeafNames) && list.name == markingName && Values() == BlankArc(markingName)
    }

    /** Shape and values depend only on the node's children and name and on the leaves' names and values: a change of state that leaves those alone keeps both. */
    twostate lemma ShapedKept(leafNames: seq<string>)
      requires old(Shaped(leafNames))
      requires unchanged(list`children, list`name)
      requires forall v | v in Held(Fields()) :: unchanged(v`name, v`text, v`number)
      ensures Shaped(leafNames) && Values() == old(Values())
    {
      var held := Held(Fields());
      assert name in held && kind in held && centerX in held && centerY in held && radius in held && a1 in held && a2 in held && thickness in held;
    }

    /** Blank depends only on the node's children and name and on the leaves' names and values: a change of state that leaves those alone keeps it. */
    twostate lemma BlankKept(markingName: string)
      requires old(Blank(markingName))
      requires unchanged(list`children, list`name)
      requires forall v | v in Held(Fields()) :: unchanged(v`name, v`text, v`number)
      ensures Blank(markingName)
    {
    }

    /** The record is what adoption makes of its node's children. */
    ghost predicate AdoptedFrom()
      reads list`children, list.children`name
    {
      var slots := Adopt(ArcFields, Names(list.children));
      slots.Some? && Fields() == Pick(list.children, slots.value)
    }

    /** A record adopted from its node holds every leaf. */
    lemma AdoptedIsComplete()
      requires AdoptedFrom()
      ensures Complete()
    {
      AdoptedFieldsSet(list.children, ArcFields);
      var f := Fields();
      assert f[0] != null && f[1] != null && f[2] != null && f[3] != null && f[4] != null && f[5] != null && f[6] != null && f[7] != null;
    }

    /**
      FieldCircularArc(marking_name): new leaves with default values, in a new
      node named after the arc. Its type leaf is named "type", not "Type".
    */
    constructor Named(markingName: string)
      ensures Complete() && fresh(Repr()) && Shaped(DefaultArcLeafNames)
      ensures list.name == markingName
      ensures Values() == BlankArc(markingName)
    {
      var l := NewNode(markingName, DefaultArcLeafNames,
        [markingName, "Undefined", "", "", "", "", "", ""],
        [0.0, 0.0, 0.0, 0.0, 0.0, 0.0, 0.0, 10.0]);
      name, kind, centerX, centerY, radius, a1, a2, thickness, list :=
        l.children[0], l.children[1], l.children[2], l.children[3], l.children[4], l.children[5], l.children[6], l.children[7], l;
      new;
      assert Leaves() == l.children;
    }

    /** FieldCircularArc(marking_name, center, radius, a1, a2, thickness): the type string is the name. */
    constructor WithValues(markingName: string, centerX: real, centerY: real, radius: real, a1: real, a2: real, thickness: real)
      ensures Complete() && fresh(Repr()) && Shaped(ArcFields)
      ensures list.name == markingName
      ensures Values() == ArcValues(markingName, markingName, centerX, centerY, radius, a1, a2, thickness)
    {
      var l := NewNode(markingName, ArcFields,
        [markingName, markingName, "", "", "", "", "", ""],
        [0.0, 0.0, centerX, centerY, radius, a1, a2, thickness]);
      this.name, this.kind, this.centerX, this.centerY, this.radius, this.a1, this.a2, this.thickness, list :=
        l.children[0], l.children[1], l.children[2], l.children[3], l.children[4], l.children[5], l.children[6], l.children[7], l;
      new;
      assert Leaves() == l.children;
    }

    /** The copy constructor: new leaves carrying the original's values, in a new node named after it. */
    constructor Copy(other: FieldCircularArc)
      requires other.Complete()
      ensures Complete() && fresh(Repr()) && Shaped(ArcFields)
      ensures list.name == other.name.text
      ensures Values() == other.Values()
    {
      var l := NewNode(other.name.text, ArcFields,
        [other.name.text, other.kind.text, "", "", "", "", "", ""],
        [0.0, 0.0, other.centerX.number, other.centerY.number, other.radius.number, other.a1.number, other.a2.number, other.thickness.number]);
      name, kind, centerX, centerY, radius, a1, a2, thickness, list :=
        l.children[0], l.children[1], l.children[2], l.children[3], l.children[4], l.children[5], l.children[6], l.children[7], l;
      new;
      assert Leaves() == l.children;
    }

    /**
      The adopting constructor: wraps existing leaves and node, creating
      nothing. It fills the type enumeration through the type reference, so
      that reference must be set.
    */
    constructor Wrap(fields: seq<Var?>, list: Var)
      requires |fields| == 8 && fields[1] != null
      ensures Fields() == fields && this.list == list
    {
      name, kind, centerX, centerY, radius, a1, a2, thickness :=
        fields[0], fields[1], fields[2], fields[3], fields[4], fields[5], fields[6], fields[7];
      this.list := list;
    }

    /**
      FromVarList: adopt a node as an arc when it has exactly eight children,
      each named after an arc field and every field named; the last child of
      each name supplies that field. Otherwise no record.
    */
    static method FromVarList(list: Var) returns (r: FieldCircularArc?)
      ensures r == null <==> Adopt(ArcFields, Names(list.children)).None?
      ensures r != null ==> fresh(r) && r.list == list && r.AdoptedFrom() && r.Complete()
    {
      ArcFieldsDistinct();
      var fields := AdoptChildren(list.children, ArcFields);
      if fields.None? {
        return null;
      }
      r := new FieldCircularArc.Wrap(fields.value, list);
      r.AdoptedIsComplete();
    }

    /** Rename: the node takes the current value of the Name leaf. */
    method Rename()
      requires name != null
      modifies list`name
      ensures list.name == name.text
    {
      list.name := name.text;
    }

    /** ~FieldCircularArc: every leaf the record holds is taken out of its node, the other children stay in order. */
    method Release()
      modifies list`children
      ensures list.children == Without(old(list.children), Held(Fields()))
    {
      DetachAll(list, [thickness, kind, a2, a1, radius, centerY, centerX, name]);
      assert Held([thickness, kind, a2, a1, radius, centerY, centerX, name]) == Held(Fields());
    }
  }
}
