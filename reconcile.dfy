/**
  What reconciling a record collection with the children of its list node
  does, stated over node identities. `known` are the nodes of the existing
  records, `entries` the children found in the tree, `accepts` the nodes whose
  own children pass the adoption schema.
*/
module Reconcile {
  import opened Seqs

  /**
    The nodes adopted, in the order the children are visited: a child is
    adopted when no record (old, or adopted earlier in the same pass) is bound
    to it yet and it passes the schema.
  */
  function Adopted<T(==)>(known: seq<T>, entries: seq<T>, accepts: set<T>): seq<T> {
    if entries == [] then []
    else
      var front, e := entries[..|entries| - 1], entries[|entries| - 1];
      var prev := Adopted(known, front, accepts);
      if e in known || e in prev || e !in accepts then prev else prev + [e]
  }

  /** The adopted nodes are exactly the unbound accepted children, each once. */
  lemma {:induction false} AdoptedMembers<T>(known: seq<T>, entries: seq<T>, accepts: set<T>)
    ensures forall x | x in Adopted(known, entries, accepts) :: x in entries && x !in known && x in accepts
    ensures forall x | x in entries && x !in known && x in accepts :: x in Adopted(known, entries, accepts)
    ensures Distinct(Adopted(known, entries, accepts))
  {
    if entries != [] {
      var front, e := entries[..|entries| - 1], entries[|entries| - 1];
      AdoptedMembers(known, front, accepts);
      assert entries == front + [e];
    }
  }

  /** The children removed from the tree: unmatched and failing the schema. */
  function Dropped<T(==)>(known: seq<T>, entries: seq<T>, accepts: set<T>): set<T> {
    set x | x in entries && x !in known && x !in accepts
  }

  /**
    One child visited: it is adopted when unbound and accepted, removed when
    unbound and refused, and otherwise left alone.
  */
  lemma ReconcileStep<T>(known: seq<T>, entries: seq<T>, accepts: set<T>, i: nat)
    requires i < |entries|
    ensures var e, prev := entries[i], Adopted(known, entries[..i], accepts);
            Adopted(known, entries[..i + 1], accepts) == if e in known || e in prev || e !in accepts then prev else prev + [e]
    ensures var e, gone := entries[i], Dropped(known, entries[..i], accepts);
            Without(entries, Dropped(known, entries[..i + 1], accepts)) ==
              if e in known || e in Adopted(known, entries[..i], accepts) || e in accepts then Without(entries, gone)
              else Without(Without(entries, gone), {e})
  {
    var e, gone := entries[i], Dropped(known, entries[..i], accepts);
    assert entries[..i + 1][..i] == entries[..i];
    if e in known || e in accepts {
      assert Dropped(known, entries[..i + 1], accepts) == gone;
    } else {
      AdoptedMembers(known, entries[..i], accepts);
      assert Dropped(known, entries[..i + 1], accepts) == gone + {e};
      WithoutTwice(entries, gone, {e});
    }
  }

  /** Visiting more children only appends: adoptions happen in child order and are never revised. */
  lemma {:induction false} AdoptedInChildOrder<T>(known: seq<T>, entries: seq<T>, accepts: set<T>, i: nat)
    requires i <= |entries|
    ensures Adopted(known, entries[..i], accepts) <= Adopted(known, entries, accepts)
  {
    if i < |entries| {
      var front := entries[..|entries| - 1];
      assert front[..i] == entries[..i];
      AdoptedInChildOrder(known, front, accepts, i);
    } else {
      assert entries[..i] == entries;
    }
  }

  /** After a pass every child still in the tree is bound to a record. */
  lemma ReconcileCovers<T>(known: seq<T>, entries: seq<T>, accepts: set<T>)
    ensures forall x | x in Without(entries, Dropped(known, entries, accepts)) ::
              x in known + Adopted(known, entries, accepts)
  {
    WithoutMembers(entries, Dropped(known, entries, accepts));
    AdoptedMembers(known, entries, accepts);
  }

  /** A pass over children that are all bound already adopts nothing and removes nothing. */
  lemma ReconcileFixpoint<T>(known: seq<T>, entries: seq<T>, accepts: set<T>)
    requires forall x | x in entries :: x in known
    ensures Adopted(known, entries, accepts) == []
    ensures Dropped(known, entries, accepts) == {}
  {
  }

  /**
    Running the pass a second time on the tree it left behind changes nothing,
    whichever nodes the schema accepts on the second pass (`accepts'`, decided
    afresh over the tree as the first pass left it).
  */
  lemma ReconcileIdempotent<T>(known: seq<T>, entries: seq<T>, accepts: set<T>, accepts': set<T>)
    ensures var known' := known + Adopted(known, entries, accepts);
            var entries' := Without(entries, Dropped(known, entries, accepts));
            Adopted(known', entries', accepts') == [] && Dropped(known', entries', accepts') == {}
  {
    var known' := known + Adopted(known, entries, accepts);
    var entries' := Without(entries, Dropped(known, entries, accepts));
    ReconcileCovers(known, entries, accepts);
    ReconcileFixpoint(known', entries', accepts');
  }

  /**
    When the old records are bound to distinct nodes that are all among the
    (distinct) children, the pass leaves as many records as children: the
    count check after the pass is silent.
  */
  lemma ReconcileBalances<T>(known: seq<T>, entries: seq<T>, accepts: set<T>)
    requires Distinct(known) && Distinct(entries)
    requires forall x | x in known :: x in entries
    ensures |known + Adopted(known, entries, accepts)| == |Without(entries, Dropped(known, entries, accepts))|
  {
    var adopted := Adopted(known, entries, accepts);
    var known' := known + adopted;
    var entries' := Without(entries, Dropped(known, entries, accepts));
    AdoptedMembers(known, entries, accepts);
    WithoutMembers(entries, Dropped(known, entries, accepts));
    assert Distinct(known') by {
      forall i, j | 0 <= i < j < |known'| ensures known'[i] != known'[j] {
        if j < |known| {
        } else if i < |known| {
          assert known'[j] in adopted;
        } else {
          assert known'[i] == adopted[i - |known|] && known'[j] == adopted[j - |known|];
        }
      }
    }
    WithoutDistinct(entries, Dropped(known, entries, accepts));
    ReconcileCovers(known, entries, accepts);
    assert Elems(known') == Elems(entries');
    SameElemsSameLength(known', entries');
  }

  /** A record whose node vanished from the tree is kept, so the counts then differ. */
  lemma VanishedNodeKeepsRecord()
    ensures var known' := [1] + Adopted([1], [], {});
            var entries' := Without([], Dropped([1], [], {}));
            |known'| == 1 && |entries'| == 0
  {
  }
}
