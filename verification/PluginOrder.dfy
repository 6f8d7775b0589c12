/** The order plugins are started in: every dependency first, or a cycle found. */
module PluginOrder {
  import opened Options

  datatype Plugin = Plugin(id: string, dependsOn: seq<string>)

  datatype StartupError =
    | FieldUnknown
    | IdDuplicated
    | TablePrefixConflict
    | DependencyMissing
    | ContributionRefused(fault: string)
    | DependencyCycle

  datatype Started = Ordered(plugins: seq<Plugin>) | Failed(error: StartupError)

  predicate DistinctIds(plugins: seq<Plugin>) {
    forall i, j | 0 <= i < j < |plugins| :: plugins[i].id != plugins[j].id
  }

  /** One plugin's tables would carry another's prefix. */
  predicate PrefixConflict(plugins: seq<Plugin>) {
    exists i, j | 0 <= i < |plugins| && 0 <= j < |plugins| ::
      plugins[j].id != plugins[i].id && plugins[i].id + "_" <= plugins[j].id
  }

  predicate IsRegistered(plugins: seq<Plugin>, id: string) {
    exists i | 0 <= i < |plugins| :: plugins[i].id == id
  }

  predicate AllRegistered(plugins: seq<Plugin>) {
    forall i, k | 0 <= i < |plugins| && 0 <= k < |plugins[i].dependsOn| ::
      IsRegistered(plugins, plugins[i].dependsOn[k])
  }

  ghost function IdSet(plugins: seq<Plugin>): set<string> {
    set i | 0 <= i < |plugins| :: plugins[i].id
  }

  // ---- the graph

  /** The first plugin needs the second, which is configured. */
  predicate Needs(plugins: seq<Plugin>, p: Plugin, q: Plugin) {
    p in plugins && q in plugins && q.id in p.dependsOn
  }

  predicate IsPath(plugins: seq<Plugin>, path: seq<Plugin>) {
    forall i | 0 <= i < |path| - 1 :: Needs(plugins, path[i], path[i + 1])
  }

  predicate IsCycle(plugins: seq<Plugin>, cycle: seq<Plugin>) {
    cycle != [] && IsPath(plugins, cycle) && Needs(plugins, cycle[|cycle| - 1], cycle[0])
  }

  ghost predicate HasCycle(plugins: seq<Plugin>) {
    exists cycle :: IsCycle(plugins, cycle)
  }

  predicate Follows(plugins: seq<Plugin>, ordered: seq<Plugin>, k: nat)
    requires k < |ordered|
  {
    forall d | d in ordered[k].dependsOn && IsRegistered(plugins, d) :: IsRegistered(ordered[..k], d)
  }

  /** Each configured plugin that one needs comes before it. */
  predicate DependenciesFirst(plugins: seq<Plugin>, ordered: seq<Plugin>) {
    forall k | 0 <= k < |ordered| :: Follows(plugins, ordered, k)
  }

  // ---- the checks

  method AssertNoIdIsTakenTwice(plugins: seq<Plugin>) returns (distinct: bool)
    ensures distinct <==> DistinctIds(plugins)
  {
    var seen: set<string> := {};
    for i := 0 to |plugins|
      invariant forall id :: id in seen <==> exists k | 0 <= k < i :: plugins[k].id == id
      invariant DistinctIds(plugins[..i])
    {
      if plugins[i].id in seen {
        return false;
      }
      seen := seen + {plugins[i].id};
    }
    assert plugins[..|plugins|] == plugins;
    distinct := true;
  }

  method AssertNoTablePrefixContainsAnother(plugins: seq<Plugin>) returns (apart: bool)
    ensures apart <==> !PrefixConflict(plugins)
  {
    for i := 0 to |plugins|
      invariant forall k, j | 0 <= k < i && 0 <= j < |plugins| ::
        plugins[j].id == plugins[k].id || !(plugins[k].id + "_" <= plugins[j].id)
    {
      for j := 0 to |plugins|
        invariant forall k | 0 <= k < j :: plugins[k].id == plugins[i].id || !(plugins[i].id + "_" <= plugins[k].id)
      {
        if plugins[j].id != plugins[i].id && plugins[i].id + "_" <= plugins[j].id {
          return false;
        }
      }
    }
    apart := true;
  }

  method AssertEveryDependencyIsRegistered(plugins: seq<Plugin>) returns (registered: bool)
    ensures registered <==> AllRegistered(plugins)
  {
    var ids: set<string> := {};
    for i := 0 to |plugins|
      invariant forall id :: id in ids <==> exists k | 0 <= k < i :: plugins[k].id == id
    {
      ids := ids + {plugins[i].id};
    }
    for i := 0 to |plugins|
      invariant forall j, k | 0 <= j < i && 0 <= k < |plugins[j].dependsOn| :: plugins[j].dependsOn[k] in ids
    {
      var dependsOn := plugins[i].dependsOn;
      for k := 0 to |dependsOn|
        invariant forall m | 0 <= m < k :: dependsOn[m] in ids
      {
        if dependsOn[k] !in ids {
          assert !IsRegistered(plugins, plugins[i].dependsOn[k]);
          return false;
        }
      }
    }
    registered := true;
  }

  function Find(plugins: seq<Plugin>, id: string): (p: Option<Plugin>)
    ensures p.Some? <==> IsRegistered(plugins, id)
    ensures p.Some? ==> p.value in plugins && p.value.id == id
  {
    if plugins == [] then None
    else if plugins[|plugins| - 1].id == id then Some(plugins[|plugins| - 1])
    else Find(plugins[..|plugins| - 1], id)
  }

  // ---- the depth-first search

  class DependencyOrder {
    const plugins: seq<Plugin>
    var settled: set<string>
    var onThePath: set<string>
    var ordered: seq<Plugin>

    constructor (plugins: seq<Plugin>)
      ensures this.plugins == plugins && settled == onThePath == {} && ordered == []
    {
      this.plugins := plugins;
      settled, onThePath, ordered := {}, {}, [];
    }

    /** What is settled is what is ordered, once each, and dependencies first. */
    ghost predicate Valid()
      reads this
    {
      && settled == IdSet(ordered) && DistinctIds(ordered) && DependenciesFirst(plugins, ordered)
      && (forall k | 0 <= k < |ordered| :: ordered[k] in plugins) && settled !! onThePath
    }

    /** The path that led here: its plugins are those being visited, and the last of it needs this one. */
    ghost predicate LedHere(path: seq<Plugin>, plugin: Plugin)
      reads this
    {
      IsPath(plugins, path) && IdSet(path) == onThePath && (path != [] ==> Needs(plugins, path[|path| - 1], plugin))
    }

    /** All it needs among the configured plugins is settled. */
    predicate NeedsNothingNew(plugin: Plugin, done: set<string>) {
      forall d | d in plugin.dependsOn && IsRegistered(plugins, d) :: d in done
    }

    method Visit(plugin: Plugin, ghost path: seq<Plugin>) returns (cyclic: bool)
      requires DistinctIds(plugins) && plugin in plugins && Valid() && LedHere(path, plugin)
      requires forall p | p in path :: p in plugins
      modifies this
      ensures cyclic ==> HasCycle(plugins)
      ensures !cyclic ==> Valid() && onThePath == old(onThePath) && plugin.id in settled && old(settled) <= settled
      // nothing moves for a settled plugin, and one whose dependencies are settled comes next
      ensures !cyclic && plugin.id in old(settled) ==> ordered == old(ordered) && settled == old(settled)
      ensures !cyclic && plugin.id !in old(settled) && NeedsNothingNew(plugin, old(settled)) ==>
        ordered == old(ordered) + [plugin]
      decreases IdSet(plugins) - onThePath
    {
      if plugin.id in settled {
        return false;
      }
      if plugin.id in onThePath {
        CycleClosed(plugins, path, plugin);
        return true;
      }
      ghost var before := onThePath;
      onThePath := onThePath + {plugin.id};
      ghost var longer := path + [plugin];
      PathGrows(plugins, path, plugin);
      for k := 0 to |plugin.dependsOn|
        invariant Valid() && onThePath == before + {plugin.id} && old(settled) <= settled
        invariant NeedsNothingNew(plugin, old(settled)) ==> ordered == old(ordered) && settled == old(settled)
        invariant forall m | 0 <= m < k && IsRegistered(plugins, plugin.dependsOn[m]) :: plugin.dependsOn[m] in settled
      {
        var required := Find(plugins, plugin.dependsOn[k]);
        if required.Some? {
          SmallerLeft(plugins, before, plugin);
          cyclic := Visit(required.value, longer);
          if cyclic {
            return;
          }
        }
      }
      onThePath := onThePath - {plugin.id};
      assert onThePath == before;
      OneMoreOrdered(plugins, ordered, plugin);
      settled := settled + {plugin.id};
      ordered := ordered + [plugin];
      cyclic := false;
    }
  }

  lemma SmallerLeft(plugins: seq<Plugin>, before: set<string>, plugin: Plugin)
    requires plugin in plugins && plugin.id !in before
    ensures IdSet(plugins) - (before + {plugin.id}) < IdSet(plugins) - before
  {
    var i :| 0 <= i < |plugins| && plugins[i] == plugin;
    assert plugin.id in IdSet(plugins) - before;
  }

  lemma PathGrows(plugins: seq<Plugin>, path: seq<Plugin>, plugin: Plugin)
    requires IsPath(plugins, path) && (path != [] ==> Needs(plugins, path[|path| - 1], plugin))
    ensures IsPath(plugins, path + [plugin]) && IdSet(path + [plugin]) == IdSet(path) + {plugin.id}
  {
    var longer := path + [plugin];
    assert longer[|path|] == plugin;
    assert forall i | 0 <= i < |path| :: longer[i] == path[i];
  }

  /** A plugin met again on the path closes a cycle. */
  lemma CycleClosed(plugins: seq<Plugin>, path: seq<Plugin>, plugin: Plugin)
    requires DistinctIds(plugins) && plugin in plugins && (forall p | p in path :: p in plugins)
    requires IsPath(plugins, path) && plugin.id in IdSet(path) && Needs(plugins, path[|path| - 1], plugin)
    ensures HasCycle(plugins)
  {
    var i :| 0 <= i < |path| && path[i].id == plugin.id;
    assert path[i] in plugins;
    assert path[i] == plugin;
    var cycle := path[i..];
    assert IsCycle(plugins, cycle);
  }

  lemma OneMoreOrdered(plugins: seq<Plugin>, ordered: seq<Plugin>, plugin: Plugin)
    requires DistinctIds(ordered) && DependenciesFirst(plugins, ordered) && plugin.id !in IdSet(ordered)
    requires forall d | d in plugin.dependsOn && IsRegistered(plugins, d) :: d in IdSet(ordered)
    ensures DistinctIds(ordered + [plugin]) && DependenciesFirst(plugins, ordered + [plugin])
    ensures IdSet(ordered + [plugin]) == IdSet(ordered) + {plugin.id}
  {
    var longer := ordered + [plugin];
    assert longer[..|ordered|] == ordered;
    forall k | 0 <= k < |longer|
      ensures Follows(plugins, longer, k)
    {
      if k < |ordered| {
        assert longer[..k] == ordered[..k] && Follows(plugins, ordered, k);
      }
    }
    PathIds(ordered, plugin);
  }

  lemma PathIds(ordered: seq<Plugin>, plugin: Plugin)
    ensures IdSet(ordered + [plugin]) == IdSet(ordered) + {plugin.id}
  {
    var longer := ordered + [plugin];
    assert longer[|ordered|] == plugin;
    assert forall i | 0 <= i < |ordered| :: longer[i] == ordered[i];
  }

  // ---- an order means there is no cycle

  predicate SamePlugins(plugins: seq<Plugin>, ordered: seq<Plugin>) {
    (forall p | p in ordered :: p in plugins) && forall p | p in plugins :: p in ordered
  }

  /** In an order, what a plugin needs stands strictly before it. */
  lemma NeedGoesDown(plugins: seq<Plugin>, ordered: seq<Plugin>, p: Plugin, q: Plugin, k: nat) returns (j: nat)
    requires DistinctIds(plugins) && DependenciesFirst(plugins, ordered) && SamePlugins(plugins, ordered)
    requires Needs(plugins, p, q) && k < |ordered| && ordered[k] == p
    ensures j < k && ordered[j] == q
  {
    assert Follows(plugins, ordered, k);
    assert IsRegistered(plugins, q.id) by {
      var i :| 0 <= i < |plugins| && plugins[i] == q;
    }
    j :| 0 <= j < k && ordered[..k][j].id == q.id;
    assert ordered[j] in ordered && ordered[j] in plugins;
  }

  /** Along a path, every plugin stands before the first. */
  lemma {:induction false} PathGoesDown(plugins: seq<Plugin>, ordered: seq<Plugin>, path: seq<Plugin>, n: nat, k: nat)
    returns (j: nat)
    requires DistinctIds(plugins) && DependenciesFirst(plugins, ordered) && SamePlugins(plugins, ordered)
    requires IsPath(plugins, path) && n < |path| && k < |ordered| && ordered[k] == path[0]
    ensures j <= k && ordered[j] == path[n]
  {
    if n == 0 {
      j := k;
    } else {
      var i := PathGoesDown(plugins, ordered, path, n - 1, k);
      j := NeedGoesDown(plugins, ordered, path[n - 1], path[n], i);
    }
  }

  lemma OnePlace(ordered: seq<Plugin>, i: nat, j: nat)
    requires DistinctIds(ordered) && i < |ordered| && j < |ordered| && ordered[i] == ordered[j]
    ensures i == j
  {
  }

  lemma OrderedHasNoCycle(plugins: seq<Plugin>, ordered: seq<Plugin>)
    requires DistinctIds(plugins) && DistinctIds(ordered) && DependenciesFirst(plugins, ordered)
    requires SamePlugins(plugins, ordered)
    ensures !HasCycle(plugins)
  {
    forall cycle
      ensures !IsCycle(plugins, cycle)
    {
      if IsCycle(plugins, cycle) {
        var k :| 0 <= k < |ordered| && ordered[k] == cycle[0];
        var j := PathGoesDown(plugins, ordered, cycle, |cycle| - 1, k);
        var i := NeedGoesDown(plugins, ordered, cycle[|cycle| - 1], cycle[0], j);
        OnePlace(ordered, i, k);
        assert false;
      }
    }
  }

  lemma SettledIsOrdered(plugins: seq<Plugin>, ordered: seq<Plugin>, p: Plugin)
    requires DistinctIds(plugins) && p in plugins && p.id in IdSet(ordered)
    requires forall k | 0 <= k < |ordered| :: ordered[k] in plugins
    ensures p in ordered
  {
    var k :| 0 <= k < |ordered| && ordered[k].id == p.id;
    assert ordered[k] in plugins && ordered[k] == p;
  }

  lemma NextNeedsNothingNew(plugins: seq<Plugin>, i: nat)
    requires DistinctIds(plugins) && DependenciesFirst(plugins, plugins) && i < |plugins|
    ensures plugins[i].id !in IdSet(plugins[..i])
    ensures forall d | d in plugins[i].dependsOn && IsRegistered(plugins, d) :: d in IdSet(plugins[..i])
  {
    assert Follows(plugins, plugins, i);
  }

  /** Every plugin once and after all it needs, or none where some need one another. */
  method InDependencyOrder(plugins: seq<Plugin>) returns (result: Option<seq<Plugin>>)
    requires DistinctIds(plugins)
    ensures result.None? <==> HasCycle(plugins)
    ensures result.Some? ==> DistinctIds(result.value) && SamePlugins(plugins, result.value)
    ensures result.Some? ==> DependenciesFirst(plugins, result.value)
    // a configured order that is right is kept
    ensures DependenciesFirst(plugins, plugins) ==> result == Some(plugins)
  {
    if DependenciesFirst(plugins, plugins) {
      OrderedHasNoCycle(plugins, plugins);
    }
    var search := new DependencyOrder(plugins);
    assert plugins[..0] == [];
    for i := 0 to |plugins|
      invariant search.plugins == plugins && search.Valid() && search.onThePath == {}
      invariant forall k | 0 <= k < i :: plugins[k].id in search.settled
      invariant DependenciesFirst(plugins, plugins) ==> search.ordered == plugins[..i]
    {
      if DependenciesFirst(plugins, plugins) {
        NextNeedsNothingNew(plugins, i);
        assert search.settled == IdSet(plugins[..i]);
        assert plugins[..i + 1] == plugins[..i] + [plugins[i]];
      }
      var cyclic := search.Visit(plugins[i], []);
      if cyclic {
        return None;
      }
    }
    var ordered := search.ordered;
    assert plugins[..|plugins|] == plugins;
    forall p | p in plugins
      ensures p in ordered
    {
      SettledIsOrdered(plugins, ordered, p);
    }
    OrderedHasNoCycle(plugins, ordered);
    result := Some(ordered);
  }

  // ---- the start

  /** The first plugin something is wrong with, and what. */
  predicate IsFirstFault(plugins: seq<Plugin>, fault: Plugin -> Option<string>, i: nat, name: string) {
    i < |plugins| && fault(plugins[i]) == Some(name) && forall k | 0 <= k < i :: fault(plugins[k]).None?
  }

  predicate AllDeclared(plugins: seq<Plugin>, unknown: Plugin -> bool) {
    forall p | p in plugins :: !unknown(p)
  }

  predicate AllSound(plugins: seq<Plugin>, fault: Plugin -> Option<string>) {
    forall p | p in plugins :: fault(p).None?
  }

  /** What each start error says: its own check fails and every check before it passes. */
  ghost predicate Explains(error: StartupError, plugins: seq<Plugin>, unknown: Plugin -> bool, fault: Plugin -> Option<string>) {
    match error
    case FieldUnknown => !AllDeclared(plugins, unknown)
    case IdDuplicated => AllDeclared(plugins, unknown) && !DistinctIds(plugins)
    case TablePrefixConflict => AllDeclared(plugins, unknown) && DistinctIds(plugins) && PrefixConflict(plugins)
    case DependencyMissing =>
      && AllDeclared(plugins, unknown) && DistinctIds(plugins) && !PrefixConflict(plugins) && !AllRegistered(plugins)
    case ContributionRefused(name) =>
      && AllDeclared(plugins, unknown) && DistinctIds(plugins) && !PrefixConflict(plugins) && AllRegistered(plugins)
      && exists i: nat :: IsFirstFault(plugins, fault, i, name)
    case DependencyCycle =>
      && AllDeclared(plugins, unknown) && DistinctIds(plugins) && !PrefixConflict(plugins) && AllRegistered(plugins)
      && AllSound(plugins, fault) && HasCycle(plugins)
  }

  method AssertEveryFieldIsDeclared(plugins: seq<Plugin>, unknown: Plugin -> bool) returns (declared: bool)
    ensures declared <==> AllDeclared(plugins, unknown)
  {
    for i := 0 to |plugins|
      invariant forall k | 0 <= k < i :: !unknown(plugins[k])
    {
      if unknown(plugins[i]) {
        return false;
      }
    }
    declared := true;
  }

  method AssertEveryContribution(plugins: seq<Plugin>, fault: Plugin -> Option<string>) returns (found: Option<string>)
    ensures found.None? <==> AllSound(plugins, fault)
    ensures found.Some? ==> exists i: nat :: IsFirstFault(plugins, fault, i, found.value)
  {
    for i := 0 to |plugins|
      invariant forall k | 0 <= k < i :: fault(plugins[k]).None?
    {
      if fault(plugins[i]).Some? {
        assert IsFirstFault(plugins, fault, i, fault(plugins[i]).value);
        return fault(plugins[i]);
      }
    }
    found := None;
  }

  /** The checks before the order, in their order. What one plugin's fields, error codes, routes,
      limits and tables have wrong with them is a parameter. */
  method Start(plugins: seq<Plugin>, unknown: Plugin -> bool, fault: Plugin -> Option<string>) returns (started: Started)
    ensures forall error :: started == Failed(error) <==> Explains(error, plugins, unknown, fault)
    ensures started.Ordered? ==> DistinctIds(started.plugins) && SamePlugins(plugins, started.plugins)
    ensures started.Ordered? ==>
      forall k, d | 0 <= k < |started.plugins| && d in started.plugins[k].dependsOn ::
        IsRegistered(started.plugins[..k], d)
  {
    hide AllDeclared, DistinctIds, PrefixConflict, AllRegistered, AllSound, HasCycle, IsFirstFault;
    var declared := AssertEveryFieldIsDeclared(plugins, unknown);
    if !declared {
      return Failed(FieldUnknown);
    }
    var distinct := AssertNoIdIsTakenTwice(plugins);
    if !distinct {
      return Failed(IdDuplicated);
    }
    var apart := AssertNoTablePrefixContainsAnother(plugins);
    if !apart {
      return Failed(TablePrefixConflict);
    }
    var registered := AssertEveryDependencyIsRegistered(plugins);
    if !registered {
      return Failed(DependencyMissing);
    }
    var found := AssertEveryContribution(plugins, fault);
    if found.Some? {
      OneFirstFault(plugins, fault, found.value);
      return Failed(ContributionRefused(found.value));
    }
    SoundHasNoFault(plugins, fault);
    var ordered := InDependencyOrder(plugins);
    if ordered.None? {
      return Failed(DependencyCycle);
    }
    EveryDependencyFirst(plugins, ordered.value);
    started := Ordered(ordered.value);
  }

  lemma OneFirstFault(plugins: seq<Plugin>, fault: Plugin -> Option<string>, name: string)
    requires exists i: nat :: IsFirstFault(plugins, fault, i, name)
    ensures !AllSound(plugins, fault)
    ensures forall j: nat, other | IsFirstFault(plugins, fault, j, other) :: other == name
  {
    var i: nat :| IsFirstFault(plugins, fault, i, name);
    assert plugins[i] in plugins;
  }

  lemma SoundHasNoFault(plugins: seq<Plugin>, fault: Plugin -> Option<string>)
    requires AllSound(plugins, fault)
    ensures forall i: nat, name :: !IsFirstFault(plugins, fault, i, name)
  {
  }

  lemma EveryDependencyFirst(plugins: seq<Plugin>, ordered: seq<Plugin>)
    requires AllRegistered(plugins) && SamePlugins(plugins, ordered) && DependenciesFirst(plugins, ordered)
    ensures forall k, d | 0 <= k < |ordered| && d in ordered[k].dependsOn :: IsRegistered(ordered[..k], d)
  {
    forall k, d | 0 <= k < |ordered| && d in ordered[k].dependsOn
      ensures IsRegistered(ordered[..k], d)
    {
      assert ordered[k] in plugins;
      var i :| 0 <= i < |plugins| && plugins[i] == ordered[k];
      var m :| 0 <= m < |plugins[i].dependsOn| && plugins[i].dependsOn[m] == d;
      assert Follows(plugins, ordered, k);
    }
  }
}
