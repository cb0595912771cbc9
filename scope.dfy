/**
 * One lexical binding level of the semantic scoper (a `Scope`), the
 * variables it binds, and the declaration of a function's parameters into a
 * fresh scope.
 *
 * The scope's own implementation is not part of this model; its
 * `declareVariable` is modelled by `Declare` under the assumption that a
 * variable's id is drawn from the scope's counter (which then grows by one)
 * and that declaring a name the scope already binds is an error.
 */
module Scopes {

  datatype Option<T> = None | Some(value: T)

  datatype Result<T, E> = Ok(value: T) | Err(error: E)

  /** Identifiers are opaque strings; no Unicode conversion is modelled. */
  type Name = string

  datatype SourcePosition = SourcePosition(line: nat, character: nat, file: string)

  /** A semantic type: produced by type checking, never inspected by scoping. */
  datatype SemanticType = SemanticType(description: string)

  /** A variable slot: its id, declared type, whether it is frozen, and where it was declared. */
  datatype Variable = Variable(id: nat, varType: SemanticType, frozen: bool, position: SourcePosition)

  /** The bindings of one lexical level and the counter the next id is drawn from. */
  datatype Scope = Scope(vars: map<Name, Variable>, maxVariableId: nat)

  /** A parameter of the function whose body is being analysed. */
  datatype Parameter = Parameter(name: Name, paramType: SemanticType)

  /** Raised when a scope is asked to declare a name it already binds. */
  datatype RedeclarationError = RedeclarationError(position: SourcePosition, name: Name)

  /** A successful declaration: the scope afterwards and the new variable. */
  datatype Declared = Declared(scope: Scope, variable: Variable)

  /**
   * The numbering invariant of one scope: every id lies in [lo, counter),
   * and different names are bound to different ids.
   */
  ghost predicate IdsWithin(sc: Scope, lo: nat)
  {
    && lo <= sc.maxVariableId
    && (forall n :: n in sc.vars ==> lo <= sc.vars[n].id < sc.maxVariableId)
    && (forall n, m :: n in sc.vars && m in sc.vars && n != m ==> sc.vars[n].id != sc.vars[m].id)
  }

  /** `Scope::declareVariable`: bind `name` to a variable numbered from the scope's counter. */
  function Declare(sc: Scope, name: Name, t: SemanticType, frozen: bool, p: SourcePosition)
    : (r: Result<Declared, RedeclarationError>)
    ensures r.Err? <==> name in sc.vars
    ensures r.Err? ==> r.error == RedeclarationError(p, name)
    ensures r.Ok? ==> r.value.scope.vars.Keys == sc.vars.Keys + {name}
    ensures r.Ok? ==> forall n :: n in sc.vars ==> r.value.scope.vars[n] == sc.vars[n]
    ensures r.Ok? ==> r.value.scope.vars[name] == r.value.variable
    ensures r.Ok? ==> r.value.variable == Variable(sc.maxVariableId, t, frozen, p)
    ensures r.Ok? ==> r.value.scope.maxVariableId == sc.maxVariableId + 1
  {
    if name in sc.vars then
      Err(RedeclarationError(p, name))
    else
      var v := Variable(sc.maxVariableId, t, frozen, p);
      Ok(Declared(Scope(sc.vars[name := v], sc.maxVariableId + 1), v))
  }

  /** A declaration keeps a scope's numbering: the new id is above every id already bound. */
  lemma DeclareKeepsNumbering(sc: Scope, lo: nat, name: Name, t: SemanticType, frozen: bool, p: SourcePosition)
    requires IdsWithin(sc, lo) && name !in sc.vars
    ensures IdsWithin(Declare(sc, name, t, frozen, p).value.scope, lo)
  {
  }

  /** The ids lo, lo + 1, ..., hi - 1. */
  function IdRange(lo: nat, hi: nat): (ids: set<nat>)
    ensures forall i: nat :: i in ids <==> lo <= i < hi
    ensures lo <= hi ==> |ids| == hi - lo
    decreases hi
  {
    if hi <= lo then {} else IdRange(lo, hi - 1) + {hi - 1}
  }

  /** Bindings with pairwise different ids drawn from `ids` are no more than `ids`. */
  lemma {:induction false} InjectiveIdsFit(m: map<Name, Variable>, ids: set<nat>)
    requires forall n :: n in m ==> m[n].id in ids
    requires forall n, n' :: n in m && n' in m && n != n' ==> m[n].id != m[n'].id
    ensures |m| <= |ids|
    decreases |m|
  {
    if |m| > 0 {
      var n :| n in m;
      var rest := m - {n};
      assert rest.Keys == m.Keys - {n};
      InjectiveIdsFit(rest, ids - {m[n].id});
    }
  }

  /** A well-numbered scope holds at most as many variables as ids it has handed out. */
  lemma VariableCountFits(sc: Scope, lo: nat)
    requires IdsWithin(sc, lo)
    ensures |sc.vars| <= sc.maxVariableId - lo
  {
    InjectiveIdsFit(sc.vars, IdRange(lo, sc.maxVariableId));
  }

  /** The names of the parameters. */
  function Names(ps: seq<Parameter>): set<Name>
  {
    set k | 0 <= k < |ps| :: ps[k].name
  }

  ghost predicate NamesDistinct(ps: seq<Parameter>)
  {
    forall a, b :: 0 <= a < b < |ps| ==> ps[a].name != ps[b].name
  }

  lemma {:induction false} DistinctNamesCount(ps: seq<Parameter>)
    requires NamesDistinct(ps)
    ensures |Names(ps)| == |ps|
  {
    if |ps| > 0 {
      var init := ps[..|ps| - 1];
      DistinctNamesCount(init);
      assert Names(ps) == Names(init) + {ps[|ps| - 1].name};
    }
  }

  lemma ExtendDistinct(ps: seq<Parameter>, i: nat)
    requires i < |ps| && NamesDistinct(ps[..i]) && ps[i].name !in Names(ps[..i])
    ensures NamesDistinct(ps[..i + 1])
  {
    var q := ps[..i + 1];
    forall a, b | 0 <= a < b < |q|
      ensures q[a].name != q[b].name
    {
      if b == i {
        assert ps[..i][a].name in Names(ps[..i]);
      } else {
        assert ps[..i][a] == ps[a] && ps[..i][b] == ps[b];
      }
    }
  }

  /**
   * Starting at `i`, the length of the longest prefix of `ps` whose names are
   * pairwise different: the number of parameters declared before a
   * redeclaration stops the declaring loop.
   */
  function DistinctPrefixFrom(ps: seq<Parameter>, i: nat): (d: nat)
    requires i <= |ps| && NamesDistinct(ps[..i])
    ensures i <= d <= |ps|
    ensures NamesDistinct(ps[..d])
    ensures d < |ps| ==> ps[d].name in Names(ps[..d])
    decreases |ps| - i
  {
    if i == |ps| || ps[i].name in Names(ps[..i]) then
      i
    else
      ExtendDistinct(ps, i);
      DistinctPrefixFrom(ps, i + 1)
  }

  /** How many parameters are declared before the first one that repeats an earlier name. */
  function DistinctPrefix(ps: seq<Parameter>): (d: nat)
    ensures d <= |ps| && NamesDistinct(ps[..d])
    ensures d < |ps| ==> ps[d].name in Names(ps[..d])
    ensures d == |ps| <==> NamesDistinct(ps)
  {
    assert ps[..0] == [];
    assert ps[..|ps|] == ps;
    DistinctPrefixFrom(ps, 0)
  }

  /**
   * The scope produced by declaring the parameters `ps`, in order, frozen and
   * at position `p`, into an empty scope whose counter starts at `start`.
   */
  function ArgumentsScope(start: nat, ps: seq<Parameter>, p: SourcePosition): Scope
  {
    if ps == [] then
      Scope(map[], start)
    else
      var last := |ps| - 1;
      var sc := ArgumentsScope(start, ps[..last], p);
      Scope(sc.vars[ps[last].name := Variable(start + last, ps[last].paramType, true, p)], start + |ps|)
  }

  lemma NamesDistinctInit(ps: seq<Parameter>)
    requires |ps| > 0 && NamesDistinct(ps)
    ensures NamesDistinct(ps[..|ps| - 1])
    ensures ps[|ps| - 1].name !in Names(ps[..|ps| - 1])
  {
    var init := ps[..|ps| - 1];
    forall a, b | 0 <= a < b < |init| ensures init[a].name != init[b].name {
      assert init[a] == ps[a] && init[b] == ps[b];
    }
  }

  /** Parameter k is bound to a frozen variable numbered start + k. */
  lemma {:induction false} ArgumentsScopeValues(start: nat, ps: seq<Parameter>, p: SourcePosition)
    requires NamesDistinct(ps)
    ensures forall k :: 0 <= k < |ps| ==>
              ps[k].name in ArgumentsScope(start, ps, p).vars &&
              ArgumentsScope(start, ps, p).vars[ps[k].name] == Variable(start + k, ps[k].paramType, true, p)
  {
    if ps != [] {
      var last := |ps| - 1;
      var init := ps[..last];
      NamesDistinctInit(ps);
      ArgumentsScopeValues(start, init, p);
      var sc := ArgumentsScope(start, ps, p);
      forall k | 0 <= k < |ps|
        ensures ps[k].name in sc.vars && sc.vars[ps[k].name] == Variable(start + k, ps[k].paramType, true, p)
      {
        if k < last {
          assert init[k] == ps[k];
        }
      }
    }
  }

  /** The arguments scope binds exactly the parameters' names and counts one id per parameter. */
  lemma {:induction false} ArgumentsScopeKeys(start: nat, ps: seq<Parameter>, p: SourcePosition)
    ensures ArgumentsScope(start, ps, p).vars.Keys == Names(ps)
    ensures ArgumentsScope(start, ps, p).maxVariableId == start + |ps|
  {
    if ps != [] {
      var last := |ps| - 1;
      var init := ps[..last];
      ArgumentsScopeKeys(start, init, p);
      assert ps == init + [ps[last]];
      assert Names(ps) == Names(init) + {ps[last].name};
    }
  }

  /**
   * When the names are distinct, parameter k is bound to a frozen variable
   * numbered start + k, the scope binds exactly the parameters' names, one
   * variable each, and its ids are the consecutive range [start, start + |ps|).
   */
  lemma ArgumentsScopeBindsParameters(start: nat, ps: seq<Parameter>, p: SourcePosition)
    requires NamesDistinct(ps)
    ensures ArgumentsScope(start, ps, p).vars.Keys == Names(ps)
    ensures |ArgumentsScope(start, ps, p).vars| == |ps|
    ensures forall k :: 0 <= k < |ps| ==>
              ArgumentsScope(start, ps, p).vars[ps[k].name] == Variable(start + k, ps[k].paramType, true, p)
    ensures ArgumentsScope(start, ps, p).maxVariableId == start + |ps|
    ensures IdsWithin(ArgumentsScope(start, ps, p), start)
  {
    var sc := ArgumentsScope(start, ps, p);
    ArgumentsScopeValues(start, ps, p);
    ArgumentsScopeKeys(start, ps, p);
    DistinctNamesCount(ps);
    assert |sc.vars| == |sc.vars.Keys|;
    forall n | n in sc.vars
      ensures start <= sc.vars[n].id < sc.maxVariableId
    {
      var k :| 0 <= k < |ps| && ps[k].name == n;
    }
    forall n, m | n in sc.vars && m in sc.vars && n != m
      ensures sc.vars[n].id != sc.vars[m].id
    {
      var a :| 0 <= a < |ps| && ps[a].name == n;
      var b :| 0 <= b < |ps| && ps[b].name == m;
    }
  }

  /**
   * Declaring parameter i into the scope of the first i parameters either
   * fails because its name is already bound there, or yields the scope of the
   * first i + 1 parameters and the variable numbered start + i.
   */
  lemma DeclareNextParameter(start: nat, ps: seq<Parameter>, i: nat, p: SourcePosition)
    requires i < |ps| && NamesDistinct(ps[..i])
    ensures ps[i].name !in Names(ps[..i]) ==> NamesDistinct(ps[..i + 1])
    ensures Declare(ArgumentsScope(start, ps[..i], p), ps[i].name, ps[i].paramType, true, p)
         == if ps[i].name in Names(ps[..i]) then Err(RedeclarationError(p, ps[i].name))
            else Ok(Declared(ArgumentsScope(start, ps[..i + 1], p), Variable(start + i, ps[i].paramType, true, p)))
  {
    var sc := ArgumentsScope(start, ps[..i], p);
    ArgumentsScopeKeys(start, ps[..i], p);
    if ps[i].name !in Names(ps[..i]) {
      ExtendDistinct(ps, i);
      var v := Variable(start + i, ps[i].paramType, true, p);
      assert ps[..i + 1][..i] == ps[..i];
      assert ArgumentsScope(start, ps[..i + 1], p) == Scope(sc.vars[ps[i].name := v], start + i + 1);
    }
  }
}
