/**
 * `ExternalAddFuncPrefix`: the shadowing transformation of the `external`
 * package. It is given its prefix, function names and modules as they are,
 * and a call matches when the text of its callee is one of the names exactly,
 * case included. The transformation itself is the pass of `FuncPrefix`.
 *
 * This class calls the `getModule` and `addUses` of a `ModuleHelper` in its
 * own package, which is not part of this model; the pass assumes that helper
 * behaves as the `ModuleHelper` of the `brt` package does.
 */
module ExternalAddFuncPrefix {
  import opened Xtree
  import opened XcodeML
  import opened FuncPrefix

  /** The transformation, with the configuration it was given. */
  class AddFuncPrefix {
    const prefix: string
    const functions: set<string>
    const modules: set<string>

    /** Keeps the three arguments as they are. */
    constructor(prefix: string, functions: set<string>, modules: set<string>)
      ensures this.prefix == prefix && this.functions == functions && this.modules == modules
    {
      this.prefix := prefix;
      this.functions := functions;
      this.modules := modules;
    }

    /**
     * `transform`: the pass, matching callee names with their case. Every
     * function call must have a name node and, when there are modules to
     * import, the scope of every matched call a declarations block.
     */
    method Transform(xcodeml: XcodeProgram)
      requires xcodeml.Valid()
      requires Named(xcodeml.root, MatchAll(xcodeml.root, FunctionCall))
      requires modules != {} ==> forall x | x in Rename(xcodeml.root, MatchAll(xcodeml.root, FunctionCall), prefix, functions, false).scopes ::
        DirectChild(View(xcodeml.root), x, Declarations).Some?
      modifies xcodeml
      ensures xcodeml.Valid() && xcodeml.root.id == old(xcodeml.root.id)
      ensures xcodeml.typeTable == old(xcodeml.typeTable) && xcodeml.nextHash == old(xcodeml.nextHash)
      ensures modules == {} ==> var r := Rename(old(xcodeml.root), MatchAll(old(xcodeml.root), FunctionCall), prefix, functions, false);
        xcodeml.root == r.tree && xcodeml.nextId == old(xcodeml.nextId)
      ensures var r := Rename(old(xcodeml.root), MatchAll(old(xcodeml.root), FunctionCall), prefix, functions, false);
        Shadowed(View(r.tree), r.scopes, modules, old(xcodeml.nextId), View(xcodeml.root), xcodeml.nextId)
    {
      Shadow(xcodeml, prefix, functions, modules, false);
    }
  }
}
