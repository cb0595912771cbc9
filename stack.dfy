/**
 * The meaning of the semantic scoper's stack of scopes, stated over values:
 * how ids are laid out across the active scopes, how a name resolves, which
 * shadowing warnings a declaration draws, and where a pushed scope starts
 * counting. Index 0 of a stack is the innermost scope.
 */
module ScopeStack {
  import opened Scopes

  /** The outcome of resolving a name: the variable, and whether it is an instance variable. */
  datatype ResolvedVariable = ResolvedVariable(variable: Variable, inInstanceScope: bool)

  /** The compile error for a reference to a name that nothing binds. */
  datatype VariableNotFoundError = VariableNotFoundError(position: SourcePosition, name: Name)

  /** What the scoper reports to the compiler's diagnostics channel. */
  datatype Diagnostic =
    | ShadowsLocalVariable(position: SourcePosition, name: Name)
    | ShadowsInstanceVariable(position: SourcePosition, name: Name)
    | ScopeChecked(scope: Scope)

  /** What the path analyser is told; `mutation == false` records an initialisation. */
  datatype PathAnalyserIncident = PathAnalyserIncident(mutation: bool, variableId: nat)

  /** The summary of the innermost scope handed to storage allocation. */
  datatype SemanticScopeStats = SemanticScopeStats(maxArgumentId: nat, variableCount: nat, maxVariableId: nat)

  /** The counter a newly pushed scope starts from. */
  function StartId(scopes: seq<Scope>, saved: nat): nat
  {
    if scopes == [] then saved else scopes[0].maxVariableId
  }

  /** The least id scope i may hold: the counter of the scope around it (0 for the outermost). */
  function Floor(scopes: seq<Scope>, i: nat): nat
    requires i < |scopes|
  {
    if i + 1 < |scopes| then scopes[i + 1].maxVariableId else 0
  }

  /**
   * Every active scope numbers its variables from the counter of the scope
   * around it up to its own counter, with no id used twice.
   */
  ghost predicate WellNumbered(scopes: seq<Scope>)
  {
    forall i {:trigger Floor(scopes, i)} :: 0 <= i < |scopes| ==> IdsWithin(scopes[i], Floor(scopes, i))
  }

  /** Counters never decrease from an outer scope to an inner one. */
  lemma {:induction false} CountersGrowInward(scopes: seq<Scope>, i: nat, j: nat)
    requires WellNumbered(scopes) && i <= j < |scopes|
    ensures scopes[j].maxVariableId <= scopes[i].maxVariableId
    decreases j - i
  {
    if i < j {
      CountersGrowInward(scopes, i + 1, j);
      assert IdsWithin(scopes[i], Floor(scopes, i));
    }
  }

  /**
   * No two variables visible at the same time share an id, and a variable of
   * an inner scope is numbered above every variable of the scopes around it.
   */
  lemma ActiveIdsDistinct(scopes: seq<Scope>, i: nat, n: Name, j: nat, m: Name)
    requires WellNumbered(scopes) && i < |scopes| && j < |scopes|
    requires n in scopes[i].vars && m in scopes[j].vars && (i != j || n != m)
    ensures scopes[i].vars[n].id != scopes[j].vars[m].id
    ensures i < j ==> scopes[i].vars[n].id > scopes[j].vars[m].id
  {
    if i == j {
      assert IdsWithin(scopes[i], Floor(scopes, i));
    } else if i < j {
      IdInRange(scopes, i, n);
      IdInRange(scopes, j, m);
      CountersGrowInward(scopes, i + 1, j);
    } else {
      IdInRange(scopes, i, n);
      IdInRange(scopes, j, m);
      CountersGrowInward(scopes, j + 1, i);
    }
  }

  /** A variable of scope i is numbered from the counter around it up to the scope's own counter. */
  lemma IdInRange(scopes: seq<Scope>, i: nat, n: Name)
    requires WellNumbered(scopes) && i < |scopes| && n in scopes[i].vars
    ensures Floor(scopes, i) <= scopes[i].vars[n].id < scopes[i].maxVariableId
  {
    assert IdsWithin(scopes[i], Floor(scopes, i));
  }

  /** A scope pushed from the current counters keeps the stack well numbered. */
  lemma PushKeepsNumbering(scopes: seq<Scope>, saved: nat)
    requires WellNumbered(scopes)
    ensures WellNumbered([Scope(map[], StartId(scopes, saved))] + scopes)
  {
    var pushed := [Scope(map[], StartId(scopes, saved))] + scopes;
    forall i | 0 <= i < |pushed|
      ensures IdsWithin(pushed[i], Floor(pushed, i))
    {
      if i > 0 {
        assert pushed[i] == scopes[i - 1];
        assert Floor(pushed, i) == Floor(scopes, i - 1);
      }
    }
  }

  /** Removing the innermost scope keeps the rest well numbered. */
  lemma PopKeepsNumbering(scopes: seq<Scope>)
    requires WellNumbered(scopes) && |scopes| > 0
    ensures WellNumbered(scopes[1..])
  {
    forall i | 0 <= i < |scopes| - 1
      ensures IdsWithin(scopes[1..][i], Floor(scopes[1..], i))
    {
      assert Floor(scopes[1..], i) == Floor(scopes, i + 1);
    }
  }

  /** Replacing the innermost scope by one numbered from the same floor keeps the stack well numbered. */
  lemma ReplaceInnermostKeepsNumbering(scopes: seq<Scope>, sc: Scope)
    requires WellNumbered(scopes) && |scopes| > 0
    requires IdsWithin(sc, Floor(scopes, 0))
    ensures WellNumbered([sc] + scopes[1..])
  {
    var next := [sc] + scopes[1..];
    forall i | 0 <= i < |next|
      ensures IdsWithin(next[i], Floor(next, i))
    {
      if i > 0 {
        assert next[i] == scopes[i];
        assert Floor(next, i) == Floor(scopes, i);
      }
    }
  }

  /** Filling the innermost scope with parameters numbered from its counter keeps the stack well numbered. */
  lemma ArgumentsStackNumbered(ps: seq<Parameter>, p: SourcePosition, scopes: seq<Scope>)
    requires WellNumbered(scopes) && |scopes| > 0 && NamesDistinct(ps)
    ensures WellNumbered([ArgumentsScope(scopes[0].maxVariableId, ps, p)] + scopes[1..])
  {
    var start := scopes[0].maxVariableId;
    ArgumentsScopeBindsParameters(start, ps, p);
    assert IdsWithin(scopes[0], Floor(scopes, 0));
    ReplaceInnermostKeepsNumbering(scopes, ArgumentsScope(start, ps, p));
  }

  /** Declaring a fresh name in the innermost scope keeps the stack well numbered. */
  lemma DeclareInnermostKeepsNumbering(scopes: seq<Scope>, name: Name, t: SemanticType, frozen: bool, p: SourcePosition)
    requires WellNumbered(scopes) && |scopes| > 0 && name !in scopes[0].vars
    ensures WellNumbered([Declare(scopes[0], name, t, frozen, p).value.scope] + scopes[1..])
  {
    assert IdsWithin(scopes[0], Floor(scopes, 0));
    DeclareKeepsNumbering(scopes[0], Floor(scopes, 0), name, t, frozen, p);
    ReplaceInnermostKeepsNumbering(scopes, Declare(scopes[0], name, t, frozen, p).value.scope);
  }

  /** Scope k is the innermost one binding `name`. */
  predicate Innermost(scopes: seq<Scope>, name: Name, k: int)
  {
    && 0 <= k < |scopes|
    && name in scopes[k].vars
    && forall j :: 0 <= j < k ==> name !in scopes[j].vars
  }

  /** No local scope binds `name`. */
  predicate NowhereLocal(scopes: seq<Scope>, name: Name)
  {
    forall k :: 0 <= k < |scopes| ==> name !in scopes[k].vars
  }

  /** An instance scope is bound and it binds `name`. */
  predicate InstanceHolds(instance: Option<Scope>, name: Name)
  {
    instance.Some? && name in instance.value.vars
  }

  /** The first scope at or after index i that binds `name`. */
  function InnermostFrom(scopes: seq<Scope>, name: Name, i: nat): (k: Option<nat>)
    requires i <= |scopes|
    ensures k.Some? ==> i <= k.value < |scopes| && name in scopes[k.value].vars
    ensures k.Some? ==> forall j :: i <= j < k.value ==> name !in scopes[j].vars
    ensures k.None? ==> forall j :: i <= j < |scopes| ==> name !in scopes[j].vars
    decreases |scopes| - i
  {
    if i == |scopes| then None
    else if name in scopes[i].vars then Some(i)
    else InnermostFrom(scopes, name, i + 1)
  }

  /**
   * Name resolution: the innermost local binding if there is one, flagged as
   * local; otherwise the instance scope's binding, flagged as instance;
   * otherwise the error carrying the reference's position and the name.
   */
  function Resolve(scopes: seq<Scope>, instance: Option<Scope>, name: Name, p: SourcePosition)
    : (r: Result<ResolvedVariable, VariableNotFoundError>)
    ensures forall k :: Innermost(scopes, name, k) ==> r == Ok(ResolvedVariable(scopes[k].vars[name], false))
    ensures NowhereLocal(scopes, name) && InstanceHolds(instance, name)
            ==> r == Ok(ResolvedVariable(instance.value.vars[name], true))
    ensures NowhereLocal(scopes, name) && !InstanceHolds(instance, name)
            ==> r == Err(VariableNotFoundError(p, name))
    ensures r.Ok? && !r.value.inInstanceScope
            ==> exists k :: Innermost(scopes, name, k) && r.value.variable == scopes[k].vars[name]
    ensures r.Ok? && r.value.inInstanceScope <==> NowhereLocal(scopes, name) && InstanceHolds(instance, name)
  {
    match InnermostFrom(scopes, name, 0)
    case Some(k) =>
      assert Innermost(scopes, name, k);
      Ok(ResolvedVariable(scopes[k].vars[name], false))
    case None =>
      if InstanceHolds(instance, name) then
        Ok(ResolvedVariable(instance.value.vars[name], true))
      else
        Err(VariableNotFoundError(p, name))
  }

  /** The indices of the scopes binding `name`, innermost first, each once. */
  function Holders(scopes: seq<Scope>, name: Name): (ks: seq<nat>)
    ensures forall a :: 0 <= a < |ks| ==> ks[a] < |scopes| && name in scopes[ks[a]].vars
    ensures forall i :: 0 <= i < |scopes| && name in scopes[i].vars ==> i in ks
    ensures forall a, b :: 0 <= a < b < |ks| ==> ks[a] < ks[b]
    decreases |scopes|
  {
    if scopes == [] then
      []
    else
      var last := |scopes| - 1;
      Holders(scopes[..last], name) + (if name in scopes[last].vars then [last] else [])
  }

  /** One "shadows previous local variable" warning per scope binding `name`. */
  function LocalShadowWarnings(scopes: seq<Scope>, name: Name, p: SourcePosition): (ws: seq<Diagnostic>)
    ensures |ws| == |Holders(scopes, name)|
    ensures forall a :: 0 <= a < |ws| ==> ws[a] == ShadowsLocalVariable(p, name)
    decreases |scopes|
  {
    if scopes == [] then
      []
    else
      var last := |scopes| - 1;
      LocalShadowWarnings(scopes[..last], name, p)
        + (if name in scopes[last].vars then [ShadowsLocalVariable(p, name)] else [])
  }

  /**
   * The warnings a declaration of `name` draws: exactly one per local scope
   * binding it, then exactly one more if the instance scope binds it.
   */
  function ShadowWarnings(scopes: seq<Scope>, instance: Option<Scope>, name: Name, p: SourcePosition)
    : (ws: seq<Diagnostic>)
    ensures |ws| == |Holders(scopes, name)| + (if InstanceHolds(instance, name) then 1 else 0)
    ensures forall a :: 0 <= a < |Holders(scopes, name)| ==> ws[a] == ShadowsLocalVariable(p, name)
    ensures InstanceHolds(instance, name) ==> ws[|ws| - 1] == ShadowsInstanceVariable(p, name)
  {
    LocalShadowWarnings(scopes, name, p)
      + (if InstanceHolds(instance, name) then [ShadowsInstanceVariable(p, name)] else [])
  }

  /** The incidents recorded for n parameters numbered from `start`: one initialisation each, in order. */
  function ArgumentIncidents(start: nat, n: nat): (rs: seq<PathAnalyserIncident>)
    ensures |rs| == n
    ensures forall k :: 0 <= k < n ==> rs[k] == PathAnalyserIncident(false, start + k)
  {
    if n == 0 then [] else ArgumentIncidents(start, n - 1) + [PathAnalyserIncident(false, start + n - 1)]
  }

  /** Recording one more parameter's initialisation extends the log by the next incident. */
  lemma ArgumentIncidentsGrow(log: seq<PathAnalyserIncident>, start: nat, n: nat)
    ensures (log + ArgumentIncidents(start, n)) + [PathAnalyserIncident(false, start + n)]
         == log + ArgumentIncidents(start, n + 1)
  {
    assert ArgumentIncidents(start, n + 1) == ArgumentIncidents(start, n) + [PathAnalyserIncident(false, start + n)];
  }
}
