# brt-kit transformations, modelled in Dafny

brt-kit ships three CLAW transformations that rewrite an XcodeML program tree
(Fortran, parsed into XML). Each one edits the tree in place:

- **ReplacePow** (`brt/transformations/ReplacePow.java`) lowers the `**`
  operator. It first adds one fresh function type with a `REAL` result to the
  type table. Then, for every `**` node in document order, it adds a `USE` of
  the power module to the declarations block among that node's own children.
  Finally it replaces each operator that is not inside a declarations block by
  a call to the power function. The call's arguments are copies of the
  operator's two children, and the call takes the operator's place. An
  operator that does not have exactly two children stops the pass with an
  `IllegalTransformationException` that carries its line.
- **AddFuncPrefix**, in two versions, shadows configured function calls:
  - The `brt` version (`brt/transformations/AddFuncPrefix.java`) reads a prefix,
    a colon-separated list of function names and a colon-separated list of
    modules from its configuration. It keeps the names lower-cased and compares
    them with a callee's name regardless of case.
  - The `external` version (`AddFuncPrefix.java`) takes the three values as
    arguments. It compares names exactly, case included.
  - Both rename every matching call to prefix + name. They collect the set of
    scopes of the renamed calls, and give each scope's declarations block one
    `USE` per configured module. The `external` version does this through a
    `ModuleHelper` of its own package, which is not part of this model; the
    model takes it to be the `brt` one.
- **ModuleHelper** (`brt/transformations/ModuleHelper.java`) provides two
  operations:
  - `getModule` finds a node's scope. That is the nearest enclosing module;
    failing that, the nearest enclosing program, function or subroutine; and
    failing that, none.
  - `addUse` and `addUses` put `USE` declarations first in a node's direct
    declarations block.

The model has these parts:

- `xtree.dfy`, `xedit.dfy` and `xcodeml.dfy` hold the program tree and the
  library operations the transformations call.
  - The tree is a value whose nodes carry unique identifiers, which stand for
    node identity.
  - `View` maps each identifier to a node record. Most contracts are stated
    on it. `Xtree.ViewDetermines` shows that, when identifiers are distinct,
    the view and the root's identifier fix the tree. The passes keep the root,
    so their view-level postconditions determine the tree they leave.
  - The `XcodeProgram` class holds the tree, the type table and two counters
    that hand out fresh node identifiers and type hashes. The library updates
    (`setValue`, `insert`, `insertAfter`, `delete`, `cloneNode`, …) are methods
    that reassign its fields.
- `modulehelper.dfy` models `ModuleHelper`.
- `replacepow.dfy` models `ReplacePow` as a class. Its `Transform` is proved
  against the function `Pass`, and what `Pass` does is proved as lemmas. The
  corrected `TransformScoped` is proved against `ScopedPass` in the same way.
- `funcprefix.dfy` holds the pass shared by the two `AddFuncPrefix` classes,
  parameterised by whether case is ignored.
- `brtaddfuncprefix.dfy` and `externaladdfuncprefix.dfy` hold the two classes
  and their constructors; `casecomparison.dfy` shows the difference in
  matching on one configuration.
- `javautil.dfy` models the Java library behaviour the code depends on:
  - `String.split` with a one-character separator;
  - ASCII `toLowerCase`;
  - decimal printing of an `int`;
  - iterating a `HashSet` in an order that is not specified.
- `wrappers.dfy` defines `Option`.

Three facts about the code shape the model of `ReplacePow`:

- **Imports of the power module.** `ReplacePow.java:70` passes the `**` node
  itself to `addUse`, once per operator, with no deduplication per scope. The
  set `modModules` declared at line 61 is never used. `addUse` dereferences the
  `DECLARATIONS` node among the direct children of the node it is given
  (`ModuleHelper.java:47`) without a check.
  - `ReplacePow.Transform` therefore requires every `**` node to have such a
    child (`PowsWellFormed`). Each operator then adds one `USE` to its own
    block.
  - That block counts among the operator's children (`ReplacePow.java:113`).
    An operator with two operands and the block has three children and raises
    the arity error. A pass without error lowers only operators one of whose
    two children is the block (`SuccessOnlyDegenerate`).
  - A `**` node whose children are its two operands fails at line 47 (see
    "Findings"). `ScopedPass` and `TransformScoped` model the pass as evidently
    intended: one `USE` in each distinct scope that `getModule` finds for an
    operator, then the same replacements.
- **Operands.** Lines 122-123 append copies of the two children to the call
  (`append(…, true)`). The operator and its original children are removed by
  `safeDelete` at line 79.
- **Failure.** When a later operator raises the arity error (line 115), every
  import and every earlier replacement stays in place. `LowerAllFails` states
  this.

## Model

| member | source | states |
|---|---|---|
| `ModuleHelper.NearestOfKind` | src/brt/transformations/ModuleHelper.java:22-25 | the walk up the ancestors finds nothing exactly when no ancestor has the kind; otherwise it finds the nearest one |
| `ModuleHelper.MatchAncestor` | src/brt/transformations/ModuleHelper.java:25 | `matchAncestor` finds nothing exactly when no strict ancestor has the kind; otherwise it finds the nearest one, as `NearestOfKind` states |
| `ModuleHelper.GetModule` | src/brt/transformations/ModuleHelper.java:21-31 | the scope is the nearest enclosing module whenever there is one, even when a function definition is nearer; otherwise the nearest enclosing function definition; with neither, no scope |
| `ModuleHelper.GetModuleEncloses` | src/brt/transformations/ModuleHelper.java:21-31 | a scope that is found strictly encloses the node and is a module or a function definition |
| `ModuleHelper.UseNodeView` | src/brt/transformations/ModuleHelper.java:45-46 | the `USE` node is one node that carries the module name and has no children |
| `ModuleHelper.PrependedUse` | src/brt/transformations/ModuleHelper.java:47 | inserting one `USE` adds exactly that node, puts it first among the block's children and leaves every other node unchanged |
| `ModuleHelper.AddUse` | src/brt/transformations/ModuleHelper.java:40-48 | requires the node to have a direct declarations block, as line 47 dereferences it; afterwards a new `USE` of the module, with a fresh identifier, is the first child of that block; nothing else changes and the type table is kept |
| `ModuleHelper.AddUses` | src/brt/transformations/ModuleHelper.java:50-56 | an empty collection changes nothing and needs no declarations block, since the `forEach` never calls `addUse`. Otherwise the node must have a direct declarations block. The tree afterwards is one `addUse` per element, in iteration order, and its view has one `USE` per element in front of that block. One fresh identifier is used per element |
| `ModuleHelper.PrependedUsesSpec` | src/brt/transformations/ModuleHelper.java:50-56 | `addUses` adds exactly one new `USE` per name, duplicates included, with consecutive fresh identifiers; they go in front of the block's old children, the last one first; no other node changes |
| `ReplacePow.ReplacePow.constructor` | src/brt/transformations/ReplacePow.java:37-42 | keeps the configured power-module name and power-function name |
| `ReplacePow.ReplacePow.AddDummyFctType` | src/brt/transformations/ReplacePow.java:94-98 | returns a function type with a `REAL` result and a hash no entry of the table has; appends it to the type table; the tree is unchanged |
| `ReplacePow.IsInDeclSpec` | src/brt/transformations/ReplacePow.java:83-85 | `isInDecl` holds exactly when some strict ancestor of the node is a declarations block |
| `ReplacePow.QueuedSpec` | src/brt/transformations/ReplacePow.java:69-75 | the queue holds exactly the operators that are not inside a declarations block, and no duplicate |
| `ReplacePow.WithUsesImports` | src/brt/transformations/ReplacePow.java:69-71 | after the first loop there is one new `USE` of the power module per operator, with no deduplication. Each is first in the declarations block of its own operator, numbered in document order. No other node changes, and identifiers stay unique |
| `ReplacePow.WithUsesKeeps` | src/brt/transformations/ReplacePow.java:69-75 | the imports move no node and add no `**`. Every operator keeps its number of children and its line, and every node keeps its chain of ancestors |
| `ReplacePow.PassImports` | src/brt/transformations/ReplacePow.java:63-71 | the first loop over every `**` of the program imports the power module as `WithUsesImports` states |
| `ReplacePow.PassQueue` | src/brt/transformations/ReplacePow.java:63-75 | after the first loop the `**` nodes are the same ones; the queue is the operators outside declarations blocks, still present with the same child counts |
| `ReplacePow.ReplacePow.ImportAll` | src/brt/transformations/ReplacePow.java:69-75 | the loop leaves the tree with all the imports and returns the queue, as `WithUses` and `Queued` define them; one identifier per operator |
| `ReplacePow.ArityErrorCount` | src/brt/transformations/ReplacePow.java:113-117 | the exception message is `Unexpected number of arguments: ` followed by decimal digits that denote the child count |
| `ReplacePow.FctCallArguments` | src/brt/transformations/ReplacePow.java:121 | `matchDescendant(ARGUMENTS)` on the new call finds its argument list |
| `ReplacePow.BuildPowCall` | src/brt/transformations/ReplacePow.java:121-123 | appending the first child and then the second to the argument list gives the power call, children in that order |
| `ReplacePow.CallForShape` | src/brt/transformations/ReplacePow.java:119-123 | the new node is a `REAL` function call whose name is the configured function with the dummy function type; its arguments are the operator's two children in order, identical except for identifiers |
| `ReplacePow.CallForIds` | src/brt/transformations/ReplacePow.java:119-123 | the call's identifiers are exactly the block of fresh identifiers it was numbered from, each used once |
| `ReplacePow.CallForNoPow` | src/brt/transformations/ReplacePow.java:119-123 | a call built from children without `**` contains no `**` |
| `ReplacePow.ReplacePow.CreatePowCall` | src/brt/transformations/ReplacePow.java:119-123 | builds that call, not attached to the tree, from fresh identifiers; the tree and type table are unchanged |
| `ReplacePow.ReplacePow.InsertPowCall` | src/brt/transformations/ReplacePow.java:119-124 | the call, numbered from the next free identifier, is inserted right after the operator |
| `ReplacePow.ReplacePow.ReplaceExponentiation` | src/brt/transformations/ReplacePow.java:109-125 | with a child count other than two: the error carries that count and the operator's line, and nothing changes. Otherwise: the call follows the operator among its siblings, and the type table is kept |
| `Xedit.ReplaceThenDelete` | src/brt/transformations/ReplacePow.java:77-80 | `insertAfter(call)` and then deleting the operator is the same as putting the call in the operator's place |
| `ReplacePow.LowerOnePosition` | src/brt/transformations/ReplacePow.java:124 | the call takes the operator's position among its parent's children; the other children are unchanged |
| `ReplacePow.LowerOneStep` | src/brt/transformations/ReplacePow.java:77-80 | one replacement removes exactly the replaced operator from `matchAll(**)`, leaves the other queued operators as they were, and uses only fresh identifiers |
| `ReplacePow.LowerAllSucceeds` | src/brt/transformations/ReplacePow.java:77-80 | the second loop ends without error exactly when every queued operator has two children; then the `**` left are exactly the ones that were not queued |
| `ReplacePow.LowerAllFails` | src/brt/transformations/ReplacePow.java:77-80 | an error comes from the first queued operator with a bad child count, and carries that count and its line; the tree is what replacing the operators before it gives, so failure is not atomic |
| `ReplacePow.ReplacePow.ReplaceAll` | src/brt/transformations/ReplacePow.java:77-80 | the loop's tree, next identifier and error are those of replacing the queued operators in order up to the first error |
| `ReplacePow.PassOutcome` | src/brt/transformations/ReplacePow.java:56-81 | the whole pass ends without error exactly when every `**` outside a declarations block has two children; then the `**` nodes left are exactly the ones inside declarations blocks |
| `ReplacePow.SuccessOnlyDegenerate` | src/brt/transformations/ReplacePow.java:69-80 | when every `**` has a declarations child and the pass ends without error, every operator outside declarations has exactly two children, one of which is that declarations block |
| `ReplacePow.RealOperatorRejected` | src/brt/transformations/ReplacePow.java:70 | for `y = x ** 2` in a program, the operator's children are its two operands, so `addUse` on the operator finds no declarations block and the program does not meet `PowsWellFormed` |
| `ReplacePow.CollectScopes` | src/brt/transformations/ReplacePow.java:61-75 | the corrected first loop returns the set of scopes `getModule` finds for the operators, and the queue of the operators outside declarations blocks |
| `ReplacePow.ScopedImports` | src/brt/transformations/ReplacePow.java:61-75 | the corrected imports add one `USE` of the power module per scope, however many operators it holds, first in that scope's declarations block, and change nothing else |
| `ReplacePow.ScopedOutcome` | src/brt/transformations/ReplacePow.java:56-81 | the corrected pass ends without error exactly when every `**` outside a declarations block has two children; then the `**` nodes left are exactly the ones inside declarations blocks |
| `ReplacePow.RealOperatorLowered` | src/brt/transformations/ReplacePow.java:56-81 | the corrected pass lowers `y = x ** 2` without error: no `**` is left, and the program's declarations block holds one `USE` of the power module |
| `ReplacePow.ReplacePow.ImportScopes` | src/brt/transformations/ReplacePow.java:61-71 | the corrected import loop does `addUse` once per scope, in the set's iteration order, with one fresh identifier each |
| `ReplacePow.ReplacePow.TransformScoped` | src/brt/transformations/ReplacePow.java:56-81 | requires every operator's scope to have a declarations block; exactly one fresh function type is appended; the tree, next identifier and error are those of `ScopedPass` for some iteration order of the scopes |
| `ReplacePow.QueueSucceeds` | src/brt/transformations/ReplacePow.java:63-80 | the pass ends without error exactly when every `**` outside a declarations block has two children |
| `ReplacePow.QueueRemaining` | src/brt/transformations/ReplacePow.java:63-80 | after a pass without error, the `**` nodes left are exactly the ones inside declarations blocks |
| `ReplacePow.ReplacePow.Transform` | src/brt/transformations/ReplacePow.java:56-81 | requires every `**` to have a declarations child (see above); exactly one fresh function type is appended; the tree, next identifier and error are those of `Pass` |
| `FuncPrefix.NameNodeInTree` | src/brt/transformations/AddFuncPrefix.java:65-67 | the callee name `matchDescendant(NAME)` finds is a `NAME` node of the tree |
| `FuncPrefix.SetValueKeepsScopes` | src/brt/transformations/AddFuncPrefix.java:66-69 | renaming a node moves nothing, so name nodes, the scopes `getModule` finds and declarations blocks stay the same |
| `FuncPrefix.MatchKey` | src/brt/transformations/AddFuncPrefix.java:65 | the text a callee name is compared by keeps its length; with case ignored it holds no upper-case letter and differs from the name only in upper-case letters; otherwise it is the name itself |
| `FuncPrefix.Matched` | src/brt/transformations/AddFuncPrefix.java:65 | the stream's `filter`: a call passes only when it has a `NAME` node, and then exactly when that name, lower-cased when case is ignored, is a configured function |
| `FuncPrefix.RenameCall` | src/brt/transformations/AddFuncPrefix.java:64-72 | a call whose name does not match changes nothing and gives no scope; a matching call's name node gets the prefix in front of its text, and the call's scope, if any, is returned |
| `FuncPrefix.RenameCalls` | src/brt/transformations/AddFuncPrefix.java:63-74 | the stream renames the matched calls in document order and collects their scopes, as `Rename` defines |
| `FuncPrefix.RenameTree` | src/brt/transformations/AddFuncPrefix.java:64-68 | when no two calls share a name node, no node comes or goes. Each matched call's name becomes prefix + name, every other node stays as it was, and unmatched names keep their text |
| `FuncPrefix.RenameScopes` | src/brt/transformations/AddFuncPrefix.java:64-74 | when no two calls share a name node, the collected scopes are exactly the scopes of the matched calls; a matched call without a scope adds none |
| `FuncPrefix.RenameScopesEnclose` | src/brt/transformations/AddFuncPrefix.java:69-72 | every collected scope is the scope `getModule` finds for one of the calls |
| `FuncPrefix.ImportedAllKeys` | src/brt/transformations/AddFuncPrefix.java:74-75 | the nodes added are the fresh identifiers, one per block and module |
| `FuncPrefix.ImportedAllKeeps` | src/brt/transformations/AddFuncPrefix.java:74-75 | the imports change no node but the declarations blocks |
| `FuncPrefix.ImportedAllUses` | src/brt/transformations/AddFuncPrefix.java:74-75 | every block gets one new `USE` per module in front of its old children |
| `FuncPrefix.ImportScopes` | src/brt/transformations/AddFuncPrefix.java:74-75 | the `forEach` over the scope set does `addUses` once per scope, for some iteration order of both sets. The scopes need declarations blocks only when there are modules; with none the tree is unchanged |
| `FuncPrefix.ShadowedSpec` | src/brt/transformations/AddFuncPrefix.java:74-75 | whatever the iteration orders: one new node per scope and module; each scope's block gets one `USE` per module in front of its old children, the same sequence in every block; nothing else changes |
| `FuncPrefix.OtherScopeKept` | src/brt/transformations/AddFuncPrefix.java:74-75 | a scope with no matched call keeps its declarations block unchanged |
| `FuncPrefix.Shadow` | src/brt/transformations/AddFuncPrefix.java:58-76 | the pass is the renaming followed by the imports into the collected scopes. With no modules the tree is exactly the renamed one. The type table is kept |
| `FuncPrefix.PassNames` | src/brt/transformations/AddFuncPrefix.java:64-68 | after the whole pass, a matched call's name is prefix + name and an unmatched call's name is unchanged |
| `FuncPrefix.PassImports` | src/brt/transformations/AddFuncPrefix.java:69-75 | after the whole pass, there is one new node per scope and module, and the imports are as `ShadowedSpec` states, relative to the original tree |
| `FuncPrefix.PassKeeps` | src/brt/transformations/AddFuncPrefix.java:58-76 | the whole pass leaves every node that is neither a callee name nor a collected scope's block unchanged |
| `FuncPrefix.PassSpec` | src/brt/transformations/AddFuncPrefix.java:58-76 | the whole pass, relative to the tree it starts from: the scopes, the renamed names, the imports, and nothing else changed |
| `JavaUtil.Split` | src/brt/transformations/AddFuncPrefix.java:37 | no piece of `split(":")` holds a colon |
| `JavaUtil.SplitJoin` | src/brt/transformations/AddFuncPrefix.java:37 | splitting a colon-joined list gives the list back, when no element holds a colon and the last is not empty |
| `JavaUtil.ToLowerSpec` | src/brt/transformations/AddFuncPrefix.java:39 | lower-casing keeps the length, leaves no upper-case letter and is idempotent |
| `JavaUtil.DecimalValueNatToString` | src/brt/transformations/ReplacePow.java:116 | the decimal text of the child count reads back as the count |
| `JavaUtil.Elements` | src/brt/transformations/AddFuncPrefix.java:74-75 | iterating a set visits each element exactly once |
| `BrtAddFuncPrefix.ParseNames` | src/brt/transformations/AddFuncPrefix.java:35-39 | every colon piece of the names value is in the set, lower-cased; no name holds a colon or an upper-case letter |
| `BrtAddFuncPrefix.ParseModules` | src/brt/transformations/AddFuncPrefix.java:41-43 | every colon piece of the modules value is in the set, case kept; no module holds a colon |
| `BrtAddFuncPrefix.ParseNamesJoin` | src/brt/transformations/AddFuncPrefix.java:35-39 | a names value written as a colon-joined list sets exactly the lower-cased names of the list |
| `BrtAddFuncPrefix.ParseModulesJoin` | src/brt/transformations/AddFuncPrefix.java:41-43 | a modules value written as a colon-joined list sets exactly its modules, in their own case |
| `BrtAddFuncPrefix.ConfiguredNameMatches` | src/brt/transformations/AddFuncPrefix.java:65 | a callee matches exactly when it equals a configured name up to the case of its letters |
| `BrtAddFuncPrefix.AddFuncPrefix.constructor` | src/brt/transformations/AddFuncPrefix.java:31-44 | the prefix is kept, the names are the lower-cased colon pieces, the modules are the colon pieces as written |
| `BrtAddFuncPrefix.AddFuncPrefix.Transform` | src/brt/transformations/AddFuncPrefix.java:58-76 | the shared pass with case-insensitive matching; with no modules configured, only the renaming |
| `ExternalAddFuncPrefix.AddFuncPrefix.constructor` | src/AddFuncPrefix.java:25-34 | keeps the prefix, the function names and the modules as given |
| `ExternalAddFuncPrefix.AddFuncPrefix.Transform` | src/AddFuncPrefix.java:46-66 | the shared pass with case-sensitive matching; with no modules configured, only the renaming |
| `CaseComparison.CaseDecides` | src/AddFuncPrefix.java:54-56 | the two versions differ on case. Configured with `EXP:Log`, the `brt` version matches `Exp`; given `exp` and `log`, the `external` version matches `exp` but not `EXP` |
| `XcodeML.XcodeProgram.CreateNode` | src/brt/transformations/ModuleHelper.java:45 | a new node, not attached to the tree, with a fresh identifier |
| `XcodeML.XcodeProgram.InsertFirst` | src/brt/transformations/ModuleHelper.java:47 | `insert(use, false)` makes the node the first child of the block |
| `XcodeML.XcodeProgram.SetNodeValue` | src/brt/transformations/AddFuncPrefix.java:68 | `setValue` changes the text of that one node |
| `XcodeML.XcodeProgram.CreateFunctionType` | src/brt/transformations/ReplacePow.java:95 | a function type whose hash no entry of the table has |
| `XcodeML.XcodeProgram.AddType` | src/brt/transformations/ReplacePow.java:96 | appends the type to the table |
| `XcodeML.XcodeProgram.CreateFctCall` | src/brt/transformations/ReplacePow.java:119-120 | a call with a `NAME` child of the given function type and an empty argument list, numbered with fresh identifiers |
| `XcodeML.XcodeProgram.CloneNode` | src/brt/transformations/ReplacePow.java:122-123 | a copy, not attached to the tree, with fresh identifiers |
| `Xedit.CloneShape` | src/brt/transformations/ReplacePow.java:122-123 | a copy differs from its original only in its identifiers |
| `XcodeML.XcodeProgram.InsertNodeAfter` | src/brt/transformations/ReplacePow.java:124 | `insertAfter` places the node right after the operator among its siblings |
| `XcodeML.XcodeProgram.DeleteNode` | src/brt/transformations/ReplacePow.java:79 | `safeDelete` removes the node and its subtree |
| `Xtree.MatchAllSpec` | src/brt/transformations/ReplacePow.java:63 | `matchAll` lists every node of the kind, each once, and nothing else |
| `Xtree.AncestorsSpec` | src/brt/transformations/ReplacePow.java:84 | the ancestor chain lists exactly the nodes that strictly enclose the node, with their kinds |

## Left out

- `analyze` and `canBeTransformedWith` in all three transformations return constants (`true`, `false`) and have no effect on the tree. The translator and the other-transformation parameters of `transform` are unused.
- `Configuration.get().getParameter(...)`: the values it returns become the constructors' parameters.
- Exceptions from a `null` dereference are preconditions, not modelled error paths:
  - `ReplacePow.ReplacePow.Transform` requires every `**` node to have a direct declarations child (`ModuleHelper.java:47` via `ReplacePow.java:70`). No `**` node whose children are its two operands meets this; see "Findings".
  - `ReplacePow.ReplacePow.TransformScoped` requires instead that the scope `getModule` finds for each `**` node has a declarations block.
  - Both `AddFuncPrefix` transforms require every function call to have a `NAME` descendant (line 65/55). When the module set is not empty, they also require every collected scope to have a declarations block; with an empty set, `addUses` looks nothing up.
- `ReplacePow.ReplacePow.Transform` and `ReplacePow.ReplacePow.TransformScoped` both require that no `**` node lies below another `**` (part of `PowsWellFormed` and of `ScopedWellFormed`). Lowering the outer one would leave a copy of the inner one in the new call, and the inner one would then be edited while detached from the tree.
- `FuncPrefix.PassSpec`: stated for programs where no two function calls share a name node (a call nested in another call's name is not a form XcodeML produces). `FuncPrefix.Shadow` itself, and the `Transform` methods built on it, need no such condition.
- `FuncPrefix.RenameTree`: stated for programs where no two function calls share a name node, for the same reason as `FuncPrefix.PassSpec`.
- `FuncPrefix.PassImports`: stated for programs where no two function calls share a name node, for the same reason as `FuncPrefix.PassSpec`.
- `FuncPrefix.PassNames`: stated for programs where no two function calls share a name node, for the same reason as `FuncPrefix.PassSpec`.
- `FuncPrefix.PassKeeps`: stated for programs where no two function calls share a name node, for the same reason as `FuncPrefix.PassSpec`.
- `FuncPrefix.RenameScopes`: stated for programs where no two function calls share a name node, for the same reason as `FuncPrefix.PassSpec`.
- `ExternalAddFuncPrefix.AddFuncPrefix.Transform`: `src/AddFuncPrefix.java` belongs to the package `external.transformation` and calls the `ModuleHelper` of that package (lines 59 and 65), which is not part of this model. The model assumes it behaves as `src/brt/transformations/ModuleHelper.java` does.
- `JavaUtil.Elements`: `HashSet` iteration order is left open. The transforms' postconditions hold for some order (`Shadowed`), not a particular one.
- Stream laziness: the stream's filter, map and collect are modelled as one sequential loop over the calls in document order, which is the order a sequential stream evaluates them in.
- `JavaUtil.ToLower`: only ASCII letters are lower-cased. Java's locale-dependent and non-ASCII case mappings are not modelled.
- `JavaUtil.Split`: modelled for a one-character separator, the only one the code uses. The regular-expression engine behind `String.split` is not modelled.
- The XcodeML library itself (XML parsing and serialization, the DOM, attribute names): nodes keep only the kind, name attribute, type, text, line and children the transformations read or write. Node identity is a unique identifier, and the library's own numbering is two counters.
- `ReplacePow.ReplacePow.Transform`: the `int` child count in the error message is not bounded to 32 bits; a node cannot have 2^31 children in practice.

## Findings

| source | as written | input that shows it | evidently intended | confidence | as-written member | corrected member |
|---|---|---|---|---|---|---|
| src/brt/transformations/ReplacePow.java:70 | `addUse(fPow, …)` looks for the `DECLARATIONS` node among the direct children of the `**` node itself. A `**` node's children are its two operands, so the lookup gives `null` and `ModuleHelper.java:47` dereferences it | the statement `y = x ** 2` inside a program (`SquareProgram`) | `addUse` on the scope `getModule` finds for the operator, once per scope, collected in the unused set `modModules` (line 61) | not executed | `ReplacePow.RealOperatorRejected` | `ReplacePow.ReplacePow.TransformScoped` |
