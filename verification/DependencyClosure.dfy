/** The database objects that belong to a plugin's own tables, found through what brought them along. */
module DependencyClosure {

  datatype Object = Object(catalogue: string, id: nat)

  datatype DependencyRow = DependencyRow(dependent: Object, referenced: Object, dependencyType: char)

  predicate BringsAlong(row: DependencyRow) {
    row.dependencyType in ['a', 'i', 'P', 'S']
  }

  /** Whatever a member brought along is a member. */
  ghost predicate Closed(created: seq<DependencyRow>, s: set<Object>) {
    forall i | 0 <= i < |created| && BringsAlong(created[i]) && created[i].referenced in s :: created[i].dependent in s
  }

  ghost predicate InEveryClosed(created: seq<DependencyRow>, owned: set<Object>, s: set<Object>) {
    forall c: set<Object> | owned <= c && Closed(created, c) :: s <= c
  }

  /** The least closed set that holds the owned relations. */
  ghost predicate Belonging(created: seq<DependencyRow>, owned: set<Object>, s: set<Object>) {
    owned <= s && Closed(created, s) && InEveryClosed(created, owned, s)
  }

  ghost function ObjectsOf(created: seq<DependencyRow>): set<Object> {
    set i | 0 <= i < |created| :: created[i].dependent
  }

  lemma OneMoreInEveryClosed(created: seq<DependencyRow>, owned: set<Object>, s: set<Object>, row: DependencyRow)
    requires InEveryClosed(created, owned, s) && row in created && BringsAlong(row) && row.referenced in s
    ensures InEveryClosed(created, owned, s + {row.dependent})
  {
    forall c: set<Object> | owned <= c && Closed(created, c)
      ensures s + {row.dependent} <= c
    {
      var i :| 0 <= i < |created| && created[i] == row;
      assert s <= c;
    }
  }

  /** Passes over the rows until one adds nothing. */
  method ObjectsBelongingToTheOwnTables(created: seq<DependencyRow>, owned: set<Object>) returns (belonging: set<Object>)
    ensures Belonging(created, owned, belonging)
  {
    belonging := owned;
    var grew := true;
    while grew
      invariant owned <= belonging && InEveryClosed(created, owned, belonging)
      invariant !grew ==> Closed(created, belonging)
      decreases ObjectsOf(created) - belonging, grew
    {
      grew := false;
      ghost var before := belonging;
      for i := 0 to |created|
        invariant before <= belonging && InEveryClosed(created, owned, belonging)
        invariant grew ==> ObjectsOf(created) - belonging < ObjectsOf(created) - before
        invariant !grew ==> belonging == before
        invariant !grew ==> forall k | 0 <= k < i && BringsAlong(created[k]) && created[k].referenced in belonging ::
          created[k].dependent in belonging
      {
        var row := created[i];
        if !BringsAlong(row) {
          continue;
        }
        if row.dependent !in belonging && row.referenced in belonging {
          OneMoreInEveryClosed(created, owned, belonging, row);
          assert row.dependent in ObjectsOf(created);
          belonging := belonging + {row.dependent};
          grew := true;
        }
      }
    }
  }

  /** The answer does not depend on the order of the rows, or on one read twice. */
  lemma OrderDoesNotMatter(created: seq<DependencyRow>, other: seq<DependencyRow>, owned: set<Object>,
                           s: set<Object>, t: set<Object>)
    requires (forall row | row in created :: row in other) && (forall row | row in other :: row in created)
    requires Belonging(created, owned, s) && Belonging(other, owned, t)
    ensures s == t
  {
    ClosedTheSame(created, other, t);
    ClosedTheSame(other, created, s);
    assert s <= t && t <= s;
  }

  lemma ClosedTheSame(created: seq<DependencyRow>, other: seq<DependencyRow>, s: set<Object>)
    requires (forall row | row in created :: row in other) && Closed(other, s)
    ensures Closed(created, s)
  {
    forall i | 0 <= i < |created| && BringsAlong(created[i]) && created[i].referenced in s
      ensures created[i].dependent in s
    {
      assert created[i] in other;
      var k :| 0 <= k < |other| && other[k] == created[i];
    }
  }

  // ---- what belonging means, object by object

  /** The object is owned, or was brought along, step by step, by one that is. */
  ghost predicate Reached(created: seq<DependencyRow>, owned: set<Object>, chain: seq<Object>) {
    && chain != [] && chain[0] in owned
    && forall i | 0 < i < |chain| :: BroughtBy(created, chain[i], chain[i - 1])
  }

  ghost predicate BroughtBy(created: seq<DependencyRow>, target: Object, bringer: Object) {
    exists row | row in created :: BringsAlong(row) && row.dependent == target && row.referenced == bringer
  }

  lemma {:induction false} ReachedBelongs(created: seq<DependencyRow>, owned: set<Object>, s: set<Object>, chain: seq<Object>)
    requires owned <= s && Closed(created, s) && Reached(created, owned, chain)
    ensures chain[|chain| - 1] in s
  {
    var n := |chain| - 1;
    if n > 0 {
      ReachedBelongs(created, owned, s, chain[..n]);
      assert BroughtBy(created, chain[n], chain[n - 1]);
      var row :| row in created && BringsAlong(row) && row.dependent == chain[n] && row.referenced == chain[n - 1];
      var i :| 0 <= i < |created| && created[i] == row;
    }
  }

  ghost predicate HasChain(created: seq<DependencyRow>, owned: set<Object>, target: Object) {
    exists chain :: Reached(created, owned, chain) && chain[|chain| - 1] == target
  }

  ghost function Chained(created: seq<DependencyRow>, owned: set<Object>): set<Object> {
    owned + set target | target in ObjectsOf(created) && HasChain(created, owned, target)
  }

  lemma ChainedIsClosed(created: seq<DependencyRow>, owned: set<Object>)
    ensures Closed(created, Chained(created, owned))
  {
    forall i | 0 <= i < |created| && BringsAlong(created[i]) && created[i].referenced in Chained(created, owned)
      ensures created[i].dependent in Chained(created, owned)
    {
      var chain := ChainTo(created, owned, created[i].referenced);
      var longer := chain + [created[i].dependent];
      assert BroughtBy(created, created[i].dependent, created[i].referenced) by {
        assert created[i] in created;
      }
      assert forall k | 0 <= k < |chain| :: longer[k] == chain[k];
      assert Reached(created, owned, longer) && longer[|longer| - 1] == created[i].dependent;
      assert created[i].dependent in ObjectsOf(created);
    }
  }

  lemma ChainTo(created: seq<DependencyRow>, owned: set<Object>, target: Object) returns (chain: seq<Object>)
    requires target in Chained(created, owned)
    ensures Reached(created, owned, chain) && chain[|chain| - 1] == target
  {
    if target in owned {
      chain := [target];
    } else {
      chain :| Reached(created, owned, chain) && chain[|chain| - 1] == target;
    }
  }

  /** An object belongs exactly when a chain of objects, each brought along by the one before, leads to it
      from an owned relation. */
  lemma BelongingMeansChained(created: seq<DependencyRow>, owned: set<Object>, s: set<Object>, target: Object)
    requires Belonging(created, owned, s)
    ensures target in s <==> HasChain(created, owned, target)
  {
    ChainedIsClosed(created, owned);
    if target in s {
      assert s <= Chained(created, owned);
      var chain := ChainTo(created, owned, target);
    }
    if HasChain(created, owned, target) {
      var chain :| Reached(created, owned, chain) && chain[|chain| - 1] == target;
      ReachedBelongs(created, owned, s, chain);
    }
  }
}
