/**
 * The semantic scoper: the stack of lexical scopes consulted while the
 * statements of a function body are analysed, the optional instance scope
 * of the type the function belongs to, and the counter that seeds the ids of
 * a scope pushed onto an empty stack.
 *
 * The path analyser and the compiler's diagnostics channel are modelled as
 * append-only logs; `Scope::checkScope`, whose body is not part of this
 * model, as the entry it leaves in the compiler's log.
 */
module SemanticScoping {
  import opened Scopes
  import opened ScopeStack

  /** The definite-assignment analyser, as the log of incidents it is told. */
  class PathAnalyser {
    var incidents: seq<PathAnalyserIncident>

    constructor()
      ensures incidents == []
    {
      incidents := [];
    }

    method Record(incident: PathAnalyserIncident)
      modifies this
      ensures incidents == old(incidents) + [incident]
    {
      incidents := incidents + [incident];
    }
  }

  /** The compiler's diagnostics channel, as the log of what it is sent. */
  class Compiler {
    var diagnostics: seq<Diagnostic>

    constructor()
      ensures diagnostics == []
    {
      diagnostics := [];
    }

    method Warn(d: Diagnostic)
      modifies this
      ensures diagnostics == old(diagnostics) + [d]
    {
      diagnostics := diagnostics + [d];
    }
  }

  /**
   * `Scope::checkScope`: the scope's own end-of-life diagnostics, which may
   * consult the path analyser. Only the fact that it ran, and on which scope,
   * is modelled.
   */
  method CheckScope(scope: Scope, analyser: PathAnalyser, compiler: Compiler)
    modifies compiler
    ensures compiler.diagnostics == old(compiler.diagnostics) + [ScopeChecked(scope)]
  {
    compiler.Warn(ScopeChecked(scope));
  }

  /** The kind of a function (method, initialiser, ...); scoping only asks whether it has an instance. */
  datatype FunctionType = FunctionType(kind: string)

  /** A type definition, as far as scoping sees it: the scope of its instance variables. */
  datatype TypeDefinition = TypeDefinition(instanceScope: Scope)

  /** A function, as far as scoping sees it: its kind and the type it is defined in, if any. */
  datatype Function = Function(functionType: FunctionType, owner: Option<TypeDefinition>)

  class SemanticScoper {
    /** The active scopes, innermost first. */
    var scopes: seq<Scope>
    /** The instance scope of the enclosing type, read but never pushed or popped. */
    const instance: Option<Scope>
    /** The counter a scope pushed onto an empty stack starts from. */
    var maxVariableId: nat

    ghost predicate Valid()
      reads this
    {
      WellNumbered(scopes)
    }

    constructor(instance: Option<Scope>)
      ensures Valid()
      ensures scopes == [] && this.instance == instance && maxVariableId == 0
    {
      scopes := [];
      this.instance := instance;
      maxVariableId := 0;
    }

    /**
     * `scoperForFunction`: a scoper with no active scope, bound to the
     * owner's instance scope exactly when the function's kind has one.
     */
    static method ScoperForFunction(f: Function, hasInstanceScope: FunctionType -> bool)
      returns (s: SemanticScoper)
      requires hasInstanceScope(f.functionType) ==> f.owner.Some?
      ensures fresh(s) && s.Valid()
      ensures s.scopes == [] && s.maxVariableId == 0
      ensures s.instance.Some? <==> hasInstanceScope(f.functionType)
      ensures s.instance.Some? ==> s.instance.value == f.owner.value.instanceScope
    {
      if hasInstanceScope(f.functionType) {
        s := new SemanticScoper(Some(f.owner.value.instanceScope));
        return;
      }
      s := new SemanticScoper(None);
    }

    /**
     * `pushScope`: one new, empty innermost scope whose counter continues from
     * the current innermost scope's, or from the saved counter when no scope
     * is active; the other scopes are untouched.
     */
    method PushScope()
      requires Valid()
      modifies this
      ensures Valid()
      ensures scopes == [Scope(map[], StartId(old(scopes), old(maxVariableId)))] + old(scopes)
      ensures maxVariableId == old(maxVariableId)
    {
      PushKeepsNumbering(scopes, maxVariableId);
      scopes := [Scope(map[], if scopes == [] then maxVariableId else scopes[0].maxVariableId)] + scopes;
    }

    /**
     * `pushArgumentsScope`: push one scope and declare the parameters into it
     * in order, frozen and at `p`, telling the analyser that each one is
     * initialised, with its id. Parameter k gets id start + k (see
     * ArgumentsScopeBindsParameters). A parameter repeating an earlier name
     * stops the loop with the redeclaration error; the parameters before it
     * stay declared and recorded.
     */
    method PushArgumentsScope(analyser: PathAnalyser, params: seq<Parameter>, p: SourcePosition)
      returns (r: Result<Scope, RedeclarationError>)
      requires Valid()
      modifies this, analyser
      ensures Valid()
      ensures maxVariableId == old(maxVariableId)
      ensures |scopes| == |old(scopes)| + 1 && scopes[1..] == old(scopes)
      ensures scopes[0] == ArgumentsScope(StartId(old(scopes), old(maxVariableId)), params[..DistinctPrefix(params)], p)
      ensures analyser.incidents
           == old(analyser.incidents) + ArgumentIncidents(StartId(old(scopes), old(maxVariableId)), DistinctPrefix(params))
      ensures r.Ok? <==> DistinctPrefix(params) == |params|
      ensures r.Ok? ==> r.value == scopes[0]
      ensures r.Err? ==> r.error == RedeclarationError(p, params[DistinctPrefix(params)].name)
    {
      PushScope();
      ghost var pushed := scopes;
      r := DeclareArguments(analyser, params, p);
      ArgumentsStackNumbered(params[..DistinctPrefix(params)], p, pushed);
    }

    /** The loop of `pushArgumentsScope`, run on the freshly pushed, empty innermost scope. */
    method DeclareArguments(analyser: PathAnalyser, params: seq<Parameter>, p: SourcePosition)
      returns (r: Result<Scope, RedeclarationError>)
      requires |scopes| > 0 && scopes[0].vars == map[]
      modifies this, analyser
      ensures maxVariableId == old(maxVariableId)
      ensures scopes == [ArgumentsScope(old(scopes)[0].maxVariableId, params[..DistinctPrefix(params)], p)] + old(scopes)[1..]
      ensures analyser.incidents
           == old(analyser.incidents) + ArgumentIncidents(old(scopes)[0].maxVariableId, DistinctPrefix(params))
      ensures r.Ok? <==> DistinctPrefix(params) == |params|
      ensures r.Ok? ==> r.value == scopes[0]
      ensures r.Err? ==> r.error == RedeclarationError(p, params[DistinctPrefix(params)].name)
    {
      ghost var start := scopes[0].maxVariableId;
      ghost var incidents0 := analyser.incidents;
      ghost var prefix := DistinctPrefix(params);
      var outer := scopes[1..];
      assert params[..0] == [];
      var i := 0;
      while i < |params|
        invariant 0 <= i <= |params|
        invariant maxVariableId == old(maxVariableId)
        invariant NamesDistinct(params[..i]) && DistinctPrefixFrom(params, i) == prefix
        invariant scopes == [ArgumentsScope(start, params[..i], p)] + outer
        invariant analyser.incidents == incidents0 + ArgumentIncidents(start, i)
      {
        DeclareNextParameter(start, params, i, p);
        // Declare the parameter, frozen, in the innermost scope.
        var declared := Declare(scopes[0], params[i].name, params[i].paramType, true, p);
        if declared.Err? {
          return Err(declared.error);
        }
        var d := declared.value;
        scopes := [d.scope] + outer;
        ArgumentIncidentsGrow(incidents0, start, i);
        var incident := PathAnalyserIncident(false, d.variable.id);
        assert incident == PathAnalyserIncident(false, start + i);
        analyser.Record(incident);
        i := i + 1;
      }
      assert params[..i] == params;
      r := Ok(scopes[0]);
    }

    /**
     * `updateMaxVariableIdForPopping`, whose body is not part of this model:
     * assumed to raise the saved counter to the innermost scope's counter.
     */
    method UpdateMaxVariableIdForPopping()
      requires |scopes| > 0
      modifies this`maxVariableId
      ensures maxVariableId >= old(maxVariableId) && maxVariableId >= scopes[0].maxVariableId
      ensures maxVariableId == old(maxVariableId) || maxVariableId == scopes[0].maxVariableId
    {
      if maxVariableId < scopes[0].maxVariableId {
        maxVariableId := scopes[0].maxVariableId;
      }
    }

    /**
     * `popScope`: check the innermost scope, then remove exactly that scope
     * (the last pushed); the scopes around it are left as they were.
     */
    method PopScope(analyser: PathAnalyser, compiler: Compiler)
      requires Valid() && |scopes| > 0
      modifies this, compiler
      ensures Valid()
      ensures compiler.diagnostics == old(compiler.diagnostics) + [ScopeChecked(old(scopes)[0])]
      ensures scopes == old(scopes)[1..]
      ensures maxVariableId >= old(maxVariableId) && maxVariableId >= old(scopes)[0].maxVariableId
      ensures maxVariableId == old(maxVariableId) || maxVariableId == old(scopes)[0].maxVariableId
    {
      CheckScope(scopes[0], analyser, compiler);
      UpdateMaxVariableIdForPopping();
      PopKeepsNumbering(scopes);
      scopes := scopes[1..];
    }

    /**
     * `createStats`: the innermost scope's variable count and counter, and the
     * counter of the scope around it (0 if there is none). On a well-numbered
     * stack the innermost scope's ids lie between the two counters, so storage
     * for `maxVariableId` slots holds them all.
     */
    function CreateStats(): (st: SemanticScopeStats)
      reads this
      requires |scopes| > 0
      ensures st.variableCount == |scopes[0].vars| && st.maxVariableId == scopes[0].maxVariableId
      ensures st.maxArgumentId == Floor(scopes, 0)
      ensures Valid() ==> st.maxArgumentId <= st.maxVariableId
      ensures Valid() ==> st.variableCount <= st.maxVariableId - st.maxArgumentId
      ensures Valid() ==> forall n :: n in scopes[0].vars ==> st.maxArgumentId <= scopes[0].vars[n].id < st.maxVariableId
    {
      var lo := if |scopes| > 1 then scopes[1].maxVariableId else 0;
      StatsFit(scopes);
      SemanticScopeStats(lo, |scopes[0].vars|, scopes[0].maxVariableId)
    }

    /**
     * `getVariable`: search the scopes from the innermost outwards, then the
     * instance scope; fail with the reference's position and the name.
     */
    method GetVariable(name: Name, errorPosition: SourcePosition)
      returns (r: Result<ResolvedVariable, VariableNotFoundError>)
      ensures r == Resolve(scopes, instance, name, errorPosition)
    {
      var i := 0;
      while i < |scopes|
        invariant 0 <= i <= |scopes|
        invariant forall j :: 0 <= j < i ==> name !in scopes[j].vars
      {
        if name in scopes[i].vars {
          assert Innermost(scopes, name, i);
          return Ok(ResolvedVariable(scopes[i].vars[name], false));
        }
        i := i + 1;
      }
      if instance.Some? && name in instance.value.vars {
        return Ok(ResolvedVariable(instance.value.vars[name], true));
      }
      return Err(VariableNotFoundError(errorPosition, name));
    }

    /**
     * `checkForShadowing`: warn once for every active scope that already binds
     * `name`, innermost first, then once more if the instance scope binds it.
     * No scope changes.
     */
    method CheckForShadowing(name: Name, p: SourcePosition, compiler: Compiler)
      modifies compiler
      ensures compiler.diagnostics == old(compiler.diagnostics) + ShadowWarnings(scopes, instance, name, p)
      ensures unchanged(this)
    {
      for i := 0 to |scopes|
        invariant compiler.diagnostics == old(compiler.diagnostics) + LocalShadowWarnings(scopes[..i], name, p)
      {
        assert scopes[..i + 1][..i] == scopes[..i];
        if name in scopes[i].vars {
          compiler.Warn(ShadowsLocalVariable(p, name));
        }
      }
      assert scopes[..|scopes|] == scopes;
      if instance.Some? && name in instance.value.vars {
        compiler.Warn(ShadowsInstanceVariable(p, name));
      }
    }
  }

  /** The bounds `createStats` reports hold of the innermost scope of any well-numbered stack. */
  lemma StatsFit(scopes: seq<Scope>)
    requires |scopes| > 0
    ensures WellNumbered(scopes) ==> Floor(scopes, 0) <= scopes[0].maxVariableId
    ensures WellNumbered(scopes) ==> |scopes[0].vars| <= scopes[0].maxVariableId - Floor(scopes, 0)
    ensures WellNumbered(scopes) ==>
              forall n :: n in scopes[0].vars ==> Floor(scopes, 0) <= scopes[0].vars[n].id < scopes[0].maxVariableId
  {
    if WellNumbered(scopes) {
      assert IdsWithin(scopes[0], Floor(scopes, 0));
      VariableCountFits(scopes[0], Floor(scopes, 0));
    }
  }
}
