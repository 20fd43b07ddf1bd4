/**
  The editable variable tree the field settings live in, reduced to what the
  field markings use. Every item of the tree is a `Var`: a leaf carries a
  string value (`text`, for string and string-enum leaves) or a double value
  (`number`), and a list node carries an ordered sequence of children.
*/
module VarTree {
  import opened Seqs

  class Var {
    var name: string
    var text: string
    var number: real
    var children: seq<Var>

    /** A leaf named `name` holding the given string and double values. */
    constructor Leaf(name: string, text: string, number: real)
      ensures this.name == name && this.text == text && this.number == number
      ensures children == []
    {
      this.name := name;
      this.text := text;
      this.number := number;
      children := [];
    }

    /** An empty list node named `name`. */
    constructor List(name: string)
      ensures this.name == name && children == []
    {
      this.name := name;
      text := "";
      number := 0.0;
      children := [];
    }

    /** addChild: the child goes to the end. */
    method AddChild(c: Var)
      modifies this`children
      ensures children == old(children) + [c]
    {
      children := children + [c];
    }

    /** A run of addChild calls: the children go to the end in the given order. */
    method AddChildren(cs: seq<Var>)
      modifies this`children
      ensures children == old(children) + cs
    {
      for i := 0 to |cs|
        invariant children == old(children) + cs[..i]
      {
        assert cs[..i + 1] == cs[..i] + [cs[i]];
        AddChild(cs[i]);
      }
      assert cs[..|cs|] == cs;
    }

    /** A run of removeChild calls: every occurrence of each given child is taken out. */
    method RemoveChildren(cs: seq<Var>)
      modifies this`children
      ensures children == Without(old(children), Elems(cs))
    {
      ghost var start := children;
      WithoutNothing(start, {});
      assert Elems(cs[..0]) == {};
      for i := 0 to |cs|
        invariant children == Without(start, Elems(cs[..i]))
      {
        assert Elems(cs[..i + 1]) == Elems(cs[..i]) + {cs[i]};
        WithoutTwice(start, Elems(cs[..i]), {cs[i]});
        RemoveChild(cs[i]);
      }
      assert cs[..|cs|] == cs;
    }

    /** removeChild: every occurrence of the child is taken out, the others keep their order. */
    method RemoveChild(c: Var)
      modifies this`children
      ensures children == Without(old(children), {c})
    {
      children := Without(children, {c});
    }
  }

  /** The names of a sequence of tree items, in order. */
  ghost function Names(cs: seq<Var>): (r: seq<string>)
    reads cs`name
    ensures |r| == |cs|
    ensures forall i | 0 <= i < |cs| :: r[i] == cs[i].name
  {
    if cs == [] then [] else Names(cs[..|cs| - 1]) + [cs[|cs| - 1].name]
  }

  /** The grandchildren of a sequence of nodes: the children of each. */
  ghost function Below(cs: seq<Var>): set<Var>
    reads cs`children
  {
    if cs == [] then {} else Below(cs[..|cs| - 1]) + Elems(cs[|cs| - 1].children)
  }

  /** Every child of a node of `cs` is below `cs`. */
  lemma {:induction false} BelowCovers(cs: seq<Var>, k: nat)
    requires k < |cs|
    ensures forall c | c in cs[k].children :: c in Below(cs)
  {
    if k < |cs| - 1 {
      BelowCovers(cs[..|cs| - 1], k);
    }
  }
}
