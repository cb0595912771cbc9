# Semantic scoper of the Emojicode compiler, modelled in Dafny

During semantic analysis, the Emojicode compiler resolves every identifier
in a function body through a `SemanticScoper`. The scoper keeps a stack of
lexical scopes. The front of the stack is the innermost scope. Each scope
maps names to variables (id, type, frozen flag, declaration position) and
keeps the counter from which its next variable id is drawn. A scoper may
also be bound to the instance scope of the type that the function belongs
to. That scope holds the object's fields, and the scoper only reads it. The
scoper also saves a counter, `maxVariableId_`, which seeds a scope pushed
onto an empty stack.

The model has three modules:

- `Scopes` (`scope.dfy`) holds the values: `Variable`, `Scope`, `Parameter`.
  It also holds `Declare`, the scope's `declareVariable`. `ArgumentsScope`
  is the scope produced by declaring a parameter list, and its lemmas give
  each parameter's binding and id.
- `ScopeStack` (`stack.dfy`) states the meaning of a stack of scopes as pure
  functions:
  - `WellNumbered`: how ids are laid out across the active scopes;
  - `Resolve`: how a name resolves;
  - `Holders` and `ShadowWarnings`: which warnings a declaration draws;
  - `StartId`: where a pushed scope starts counting.
- `SemanticScoping` (`scoper.dfy`) holds the `SemanticScoper` class. Its
  fields are `scopes` (index 0 is the innermost scope), `instance` and
  `maxVariableId`. Its methods update the stack in place, the way the C++
  deque is updated. Each method is proved against the `ScopeStack`
  functions. `Valid()` says the stack is well numbered. `PushScope`,
  `PushArgumentsScope` and `PopScope` keep it. `DeclareArguments`, the
  loop inside `PushArgumentsScope`, states the exact new stack instead,
  and `PushArgumentsScope` derives `Valid()` from that.
  `DeclareInnermostKeepsNumbering` shows that a local declared in the
  innermost scope between pushes and pops also keeps it. The path analyser and the compiler's diagnostics channel are
  classes holding append-only logs.

Two collaborators are not part of this model, and the model states what it
assumes of them:

- `Scope::declareVariable` (Scope.cpp is not part of this model) is assumed
  to number the new variable with the scope's counter and then add one to
  the counter. Declaring a name that the same scope already binds is
  assumed to be an error (`RedeclarationError`). An error while parameters
  are being declared leaves the argument scope pushed. That scope then
  holds the parameters declared before the error.
- `updateMaxVariableIdForPopping` is assumed to raise the saved counter to
  the popped scope's counter.

Two facts about the code shape the model:

- `createStats` summarises the front of the deque, which is the innermost
  scope. Its first field is the counter of the scope just outside it.
- Sibling scopes reuse ids. `pushScope` seeds a nested scope from its
  parent's counter, and under the assumption above popping never raises
  that counter. Only a scope pushed onto an empty stack starts from the
  saved maximum. `ActiveIdsDistinct` proves that variables visible at the
  same time never share an id.

## Model

| member | source | states |
|---|---|---|
| `SemanticScoping.SemanticScoper.PushScope` | Compiler/Scoping/SemanticScoper.cpp:50-52 | Exactly one new, empty scope is put in front and the existing scopes are unchanged. Its counter starts at the previous innermost scope's counter, or at the saved `maxVariableId` when the stack was empty. The stack stays well numbered. |
| `SemanticScoping.SemanticScoper.PopScope` | Compiler/Scoping/SemanticScoper.cpp:29-34 | The check is logged on the innermost scope as it was before removal. Then exactly that scope is removed, so the new stack is the old stack's tail. The saved counter becomes the larger of itself and the popped scope's counter. |
| `SemanticScoping.CheckScope` | Compiler/Scoping/SemanticScoper.cpp:30 | `checkScope` is modelled as exactly one `ScopeChecked(scope)` entry appended to the compiler's log. |
| `SemanticScoping.SemanticScoper.UpdateMaxVariableIdForPopping` | Compiler/Scoping/SemanticScoper.cpp:32 | Assumed contract: the saved counter becomes the larger of itself and the innermost scope's counter. |
| `SemanticScoping.SemanticScoper.GetVariable` | Compiler/Scoping/SemanticScoper.cpp:54-64 | The loop over the scopes, with its early return and the final error, returns exactly `Resolve` of the current stack and instance scope. |
| `ScopeStack.Resolve` | Compiler/Scoping/SemanticScoper.cpp:54-64 | If some local scope binds the name, the result is the innermost such binding, flagged as not instance, even when the instance scope also binds the name. If no local scope binds it and the instance scope does, the result is the instance binding, flagged as instance. The instance flag is set if and only if that case holds. Otherwise the result is `VariableNotFoundError` with exactly the given position and name, and never a binding. |
| `ScopeStack.InnermostFrom` | Compiler/Scoping/SemanticScoper.cpp:55-59 | Returns the first scope index at or after `i` that binds the name, with no binding scope before it. Returns `None` only when no scope from `i` on binds the name. |
| `SemanticScoping.SemanticScoper.CheckForShadowing` | Compiler/Scoping/SemanticScoper.cpp:66-75 | Appends exactly `ShadowWarnings` for the name and position to the compiler's log and changes no scope. |
| `ScopeStack.ShadowWarnings` | Compiler/Scoping/SemanticScoper.cpp:66-75 | There is one "shadows previous local variable" warning per scope binding the name. After them comes exactly one "shadows instance variable" warning if and only if a bound instance scope holds the name. |
| `ScopeStack.LocalShadowWarnings` | Compiler/Scoping/SemanticScoper.cpp:67-71 | There are as many warnings as scopes binding the name, and every one is `ShadowsLocalVariable` with the given position and name. |
| `ScopeStack.Holders` | Compiler/Scoping/SemanticScoper.cpp:67-68 | The indices of exactly the scopes that bind the name, each listed once, innermost first. |
| `SemanticScoping.SemanticScoper.PushArgumentsScope` | Compiler/Scoping/SemanticScoper.cpp:19-27 | Exactly one scope is pushed and the outer scopes are unchanged. The parameters are declared in order, frozen, at position `p`, and the new scope is `ArgumentsScope` of them. The analyser receives exactly one `PathAnalyserIncident(false, id)` per declared parameter, in order, each with that parameter's id. The call succeeds, returning the new innermost scope, if and only if the parameter names are distinct. Otherwise it fails at the first repeated name with that name and `p`. |
| `SemanticScoping.SemanticScoper.DeclareArguments` | Compiler/Scoping/SemanticScoper.cpp:22-26 | The loop over the parameters, run on an empty innermost scope. It replaces only that scope, by `ArgumentsScope` of the parameters before the first repeated name, and keeps the outer scopes. It logs one initialisation per declared parameter, with that parameter's id. It returns the new scope exactly when no name repeats, and otherwise the redeclaration error for the first repeated name. |
| `ScopeStack.ArgumentsStackNumbered` | Compiler/Scoping/SemanticScoper.cpp:21-25 | Filling the freshly pushed scope with distinct parameters, numbered from its counter, keeps the stack well numbered. |
| `ScopeStack.ArgumentIncidents` | Compiler/Scoping/SemanticScoper.cpp:24 | The analyser log for n parameters has exactly n entries, and entry k records the initialisation of id `start + k`. |
| `Scopes.Declare` | Compiler/Scoping/SemanticScoper.cpp:23 | Assumed contract of `declareVariable`: it fails exactly when the name is already bound, with the position and name. Otherwise it adds exactly that one binding, keeps every other binding, numbers the variable with the counter and adds one to the counter. |
| `Scopes.DeclareKeepsNumbering` | Compiler/Scoping/SemanticScoper.cpp:23 | A declaration keeps every id of the scope inside its range and pairwise distinct. |
| `ScopeStack.DeclareInnermostKeepsNumbering` | Compiler/Scoping/SemanticScoper.cpp:23 | Declaring a fresh name in the innermost scope of a well-numbered stack, as the compiler does for locals through `currentScope()`, keeps the whole stack well numbered. |
| `Scopes.ArgumentsScopeBindsParameters` | Compiler/Scoping/SemanticScoper.cpp:22-25 | For distinct names, the argument scope binds exactly the parameters' names, one variable each. Parameter k is a frozen variable with id `start + k` and the parameter's type. The ids are exactly the range `[start, start + n)`. |
| `Scopes.DeclareNextParameter` | Compiler/Scoping/SemanticScoper.cpp:22-24 | Declaring the next parameter into the scope of those before it either fails on a repeated name or gives the scope of one more parameter, with id `start + i`. |
| `Scopes.DistinctPrefix` | Compiler/Scoping/SemanticScoper.cpp:22-24 | Gives the number of parameters declared before the first repeated name. It equals the whole list if and only if all names are distinct. |
| `ScopeStack.ActiveIdsDistinct` | Compiler/Scoping/SemanticScoper.cpp:50-52 | In a well-numbered stack, two different visible variables never share an id. A variable of an inner scope has a larger id than every variable of the scopes around it. |
| `ScopeStack.CountersGrowInward` | Compiler/Scoping/SemanticScoper.cpp:50-52 | In a well-numbered stack, the counter of an outer scope is never above the counter of a scope inside it. |
| `ScopeStack.PushKeepsNumbering` | Compiler/Scoping/SemanticScoper.cpp:51 | A scope pushed with the counter from `StartId` keeps the stack well numbered. |
| `ScopeStack.PopKeepsNumbering` | Compiler/Scoping/SemanticScoper.cpp:33 | Removing the innermost scope keeps the rest of the stack well numbered. |
| `SemanticScoping.SemanticScoper.CreateStats` | Compiler/Scoping/SemanticScoper.cpp:36-41 | Requires a non-empty stack. Reports the innermost scope's variable count and counter. The first field is the second scope's counter, or 0 when only one scope is active. On a well-numbered stack, the innermost scope's ids lie between the first and third fields, and the count is at most their difference. |
| `SemanticScoping.StatsFit` | Compiler/Scoping/SemanticScoper.cpp:38-40 | On a well-numbered stack, the innermost scope's ids lie in `[outer counter, own counter)`, and its variable count fits in that range. |
| `Scopes.VariableCountFits` | Compiler/Scoping/SemanticScoper.cpp:38-39 | A scope whose ids are distinct and lie in `[lo, counter)` holds at most `counter - lo` variables. |
| `SemanticScoping.SemanticScoper.ScoperForFunction` | Compiler/Scoping/SemanticScoper.cpp:43-48 | Gives a fresh scoper with no active scope. It is bound to the owner's instance scope if and only if `hasInstanceScope` holds for the function's type. |

## Left out

- `Compiler/Generation/LLVMTypeHelper.hpp` is not modelled. It only declares the type-lowering interface, and its few definitions return stored LLVM type handles.
- `hasInstanceScope` is a parameter of `ScoperForFunction` (its definition is not part of this model). Building `Function` and `TypeDefinition` objects is not modelled either.
- The checks that `Scope::checkScope` performs, the path analyser's own analysis, and the text of the compiler's warnings are not modelled. A check is the log entry `ScopeChecked`, and a warning is a tagged log entry carrying the position and name.
- Names are opaque strings. The UTF-8 conversion used for warning text is not modelled.
- The instance scope is held as a value, not a pointer. The model therefore assumes that the type definition does not change it during a scoping session.
- Variable ids are unbounded naturals. A `size_t` overflow of the counters is not modelled.
- `PopScope` and `CreateStats` require a non-empty stack. The code calls `currentScope()` or asserts without checking.
- ScoperForFunction: requires the function to have an owner whenever `hasInstanceScope` holds for its type. The code dereferences the owner without checking, so the model does not cover the ownerless case.
- PushArgumentsScope: returns a copy of the new innermost scope, not a reference into the stack. Declarations that callers make later through that reference are modelled as declarations into `scopes[0]` (`DeclareInnermostKeepsNumbering`), and the aliasing itself is not modelled.
