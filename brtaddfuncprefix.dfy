/**
 * `BrtAddFuncPrefix`: the shadowing transformation of the `brt` package.
 *
 * Its configuration comes from three parameters: the prefix, the function
 * names and the modules, the last two as colon-separated lists. The names are
 * kept lower-cased, and a call matches when the lower-cased text of its
 * callee is one of them, whatever the case it is written in. The modules are
 * kept as written. The transformation itself is the pass of `FuncPrefix`.
 */
module BrtAddFuncPrefix {
  import opened Xtree
  import opened XcodeML
  import opened JavaUtil
  import opened FuncPrefix

  /** The names of the configuration parameters the constructor reads. */
  const BrFunctionPrefix := "br_function_prefix"
  const BrFunctionNames := "br_function_names"
  const BrFunctionModules := "br_function_modules"

  /**
   * The set of function names a `br_function_names` value configures: its
   * colon-separated pieces, lower-cased. No name holds a colon or an
   * upper-case letter, and every piece is there in lower case.
   */
  function ParseNames(config: string): (r: set<string>)
    ensures forall n | n in r :: ':' !in n && ToLower(n) == n
    ensures forall p | p in Split(config, ':') :: ToLower(p) in r
  {
    var pieces := Split(config, ':');
    forall p | p in pieces ensures ':' !in ToLower(p) && ToLower(ToLower(p)) == ToLower(p) {
      ToLowerSpec(p);
      LowerKeepsSeparator(p);
    }
    set p | p in pieces :: ToLower(p)
  }

  /** Lower-casing neither adds nor removes a colon. */
  lemma LowerKeepsSeparator(s: string)
    ensures ':' in ToLower(s) <==> ':' in s
  {
    if ':' in s {
      var i :| 0 <= i < |s| && s[i] == ':';
      assert ToLower(s)[i] == ':';
    }
  }

  /** The set of modules a `br_function_modules` value configures: its colon-separated pieces, as written. */
  function ParseModules(config: string): (r: set<string>)
    ensures forall m | m in r :: ':' !in m
    ensures forall p | p in Split(config, ':') :: p in r
  {
    set p | p in Split(config, ':')
  }

  /**
   * A list written out with colons configures exactly its names, lower-cased,
   * when no name holds a colon and the last one is not empty.
   */
  lemma ParseNamesJoin(names: seq<string>)
    requires names != [] && forall i | 0 <= i < |names| :: ':' !in names[i]
    requires |names| == 1 || names[|names| - 1] != ""
    ensures ParseNames(Join(names, ':')) == set n | n in names :: ToLower(n)
  {
    SplitJoin(names, ':');
  }

  /** Under the same conditions a list of modules configures exactly its modules, in their own case. */
  lemma ParseModulesJoin(modules: seq<string>)
    requires modules != [] && forall i | 0 <= i < |modules| :: ':' !in modules[i]
    requires |modules| == 1 || modules[|modules| - 1] != ""
    ensures ParseModules(Join(modules, ':')) == set m | m in modules
  {
    SplitJoin(modules, ':');
  }

  /**
   * With the names written out as a list, a callee text matches exactly when
   * it equals one of the names up to the case of its letters.
   */
  lemma ConfiguredNameMatches(names: seq<string>, text: string)
    requires names != [] && forall i | 0 <= i < |names| :: ':' !in names[i]
    requires |names| == 1 || names[|names| - 1] != ""
    ensures MatchKey(text, true) in ParseNames(Join(names, ':')) <==> exists n :: n in names && ToLower(n) == ToLower(text)
  {
    ParseNamesJoin(names);
  }

  /** The transformation, with the configuration it read. */
  class AddFuncPrefix {
    const prefix: string
    const functions: set<string>
    const modules: set<string>

    /**
     * Reads the configuration: `prefixConfig`, `namesConfig` and
     * `modulesConfig` are the values of `BrFunctionPrefix`, `BrFunctionNames`
     * and `BrFunctionModules`.
     */
    constructor(prefixConfig: string, namesConfig: string, modulesConfig: string)
      ensures prefix == prefixConfig
      ensures functions == ParseNames(namesConfig) && modules == ParseModules(modulesConfig)
    {
      prefix := prefixConfig;
      functions := ParseNames(namesConfig);
      modules := ParseModules(modulesConfig);
    }

    /**
     * `transform`: the pass, matching callee names without regard to case.
     * Every function call must have a name node and, when there are modules
     * to import, the scope of every matched call a declarations block.
     */
    method Transform(xcodeml: XcodeProgram)
      requires xcodeml.Valid()
      requires Named(xcodeml.root, MatchAll(xcodeml.root, FunctionCall))
      requires modules != {} ==> forall x | x in Rename(xcodeml.root, MatchAll(xcodeml.root, FunctionCall), prefix, functions, true).scopes ::
        DirectChild(View(xcodeml.root), x, Declarations).Some?
      modifies xcodeml
      ensures xcodeml.Valid() && xcodeml.root.id == old(xcodeml.root.id)
      ensures xcodeml.typeTable == old(xcodeml.typeTable) && xcodeml.nextHash == old(xcodeml.nextHash)
      ensures modules == {} ==> var r := Rename(old(xcodeml.root), MatchAll(old(xcodeml.root), FunctionCall), prefix, functions, true);
        xcodeml.root == r.tree && xcodeml.nextId == old(xcodeml.nextId)
      ensures var r := Rename(old(xcodeml.root), MatchAll(old(xcodeml.root), FunctionCall), prefix, functions, true);
        Shadowed(View(r.tree), r.scopes, modules, old(xcodeml.nextId), View(xcodeml.root), xcodeml.nextId)
    {
      Shadow(xcodeml, prefix, functions, modules, true);
    }
  }
}
