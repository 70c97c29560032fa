/**
 * `FuncPrefix`: the pass both `AddFuncPrefix` transformations run to shadow
 * selected intrinsic functions.
 *
 * Every function call is looked at in document order. When the text of its
 * callee name node, compared by `MatchKey`, is one of the configured names,
 * the text becomes `prefix + text` and the enclosing scope (`getModule`) of
 * the call, if there is one, is remembered. Afterwards every remembered scope
 * receives, once, one `USE` per configured module in its declarations block.
 *
 * The pass is specified by two folds: `Rename` for the renaming of the calls
 * and the scopes it collects, `ImportedAll` for the `USE`s added to those
 * scopes in some iteration order of the set. `RenameTree`, `RenameScopes`,
 * `ImportedAllKeys`, `ImportedAllKeeps`, `ImportedAllUses` and
 * `ShadowedSpec` state, without any fold, what the two do; `PassSpec` states
 * the whole pass against the tree it starts from.
 */
module FuncPrefix {
  import opened Wrappers
  import opened Xtree
  import opened XcodeML
  import opened ModuleHelper
  import opened JavaUtil

  // ---------------------------------------------------------------------
  // Renaming the calls

  /**
   * The text a callee name is looked up by in the configured set: the text
   * itself, or, when matching ignores case, the same text with every
   * upper-case letter turned into lower case and nothing else changed.
   */
  function MatchKey(text: string, ignoreCase: bool): (r: string)
    ensures |r| == |text|
    ensures !ignoreCase ==> r == text
    ensures ignoreCase ==> forall i | 0 <= i < |text| :: !('A' <= r[i] <= 'Z') && ('A' <= text[i] <= 'Z' || r[i] == text[i])
  {
    if ignoreCase then ToLower(text) else text
  }

  /** `matchDescendant(NAME)` on call `c`: the name node of its callee. */
  function NameNode(t: Xnode, c: NodeId): Option<NodeId>
  {
    match Find(t, c)
    case Some(n) => FirstDescendant(n, Name)
    case None => None
  }

  /** `value()` of node `x`: its text. */
  function TextOf(t: Xnode, x: NodeId): string
  {
    var v := View(t);
    if x in v then v[x].value else ""
  }

  /**
   * Call `c` is one of those to shadow: it has a name node, and the text of
   * that node is configured, exactly or, when matching ignores case, in
   * lower case.
   */
  predicate Matched(t: Xnode, c: NodeId, functions: set<string>, ignoreCase: bool)
    ensures Matched(t, c, functions, ignoreCase) ==> NameNode(t, c).Some?
    ensures NameNode(t, c).Some? && !ignoreCase ==>
      (Matched(t, c, functions, ignoreCase) <==> TextOf(t, NameNode(t, c).value) in functions)
    ensures NameNode(t, c).Some? && ignoreCase ==>
      (Matched(t, c, functions, ignoreCase) <==> ToLower(TextOf(t, NameNode(t, c).value)) in functions)
  {
    NameNode(t, c).Some? && MatchKey(TextOf(t, NameNode(t, c).value), ignoreCase) in functions
  }

  /** The tree after the renaming, and the scopes of the renamed calls. */
  datatype Renaming = Renaming(tree: Xnode, scopes: set<NodeId>)

  /**
   * The calls of `cs` in turn, each looked at in the tree as the earlier ones
   * left it: a matched call's name gets the prefix, and its scope, when
   * `getModule` finds one, joins the set. A call without a name node is
   * passed over here; the pass itself requires every call to have one.
   */
  function Rename(t: Xnode, cs: seq<NodeId>, prefix: string, functions: set<string>, ignoreCase: bool): Renaming
    decreases |cs|
  {
    if cs == [] then Renaming(t, {})
    else if !Matched(t, cs[0], functions, ignoreCase) then Rename(t, cs[1..], prefix, functions, ignoreCase)
    else
      var n := NameNode(t, cs[0]).value;
      var t' := SetValue(t, n, prefix + TextOf(t, n));
      var r := Rename(t', cs[1..], prefix, functions, ignoreCase);
      var s := GetModule(t', cs[0]);
      Renaming(r.tree, r.scopes + if s.Some? then {s.value} else {})
  }

  /** Renaming edits text only: the root stays the same node. */
  lemma {:induction false} RenameKeepsRoot(t: Xnode, cs: seq<NodeId>, prefix: string, functions: set<string>, ignoreCase: bool)
    ensures Rename(t, cs, prefix, functions, ignoreCase).tree.id == t.id
    decreases |cs|
  {
    if cs != [] {
      if Matched(t, cs[0], functions, ignoreCase) {
        var n := NameNode(t, cs[0]).value;
        RenameKeepsRoot(SetValue(t, n, prefix + TextOf(t, n)), cs[1..], prefix, functions, ignoreCase);
      } else {
        RenameKeepsRoot(t, cs[1..], prefix, functions, ignoreCase);
      }
    }
  }

  /** Every call of `cs` has a name node. */
  ghost predicate Named(t: Xnode, cs: seq<NodeId>)
  {
    forall i | 0 <= i < |cs| :: NameNode(t, cs[i]).Some?
  }

  /** A call's name node is a `NAME` node of the tree. */
  lemma NameNodeInTree(t: Xnode, c: NodeId)
    requires Distinct(t) && NameNode(t, c).Some?
    ensures NameNode(t, c).value in IdsOf(t) && View(t)[NameNode(t, c).value].kind == Name
  {
    FindSpec(t, c);
    var n := Find(t, c).value;
    var x := NameNode(t, c).value;
    MatchAllInSpec(n.children, Name);
    assert x in MatchAllIn(n.children, Name);
    assert x in ViewIn(n.children) && ViewIn(n.children)[x].kind == Name;
    assert x != n.id && View(n)[x] == ViewIn(n.children)[x];
  }

  /** Setting a text moves no node: name nodes, scopes and declarations blocks stay where they were. */
  lemma SetValueKeepsScopes(t: Xnode, x: NodeId, v: string, y: NodeId)
    ensures NameNode(SetValue(t, x, v), y) == NameNode(t, y)
    ensures GetModule(SetValue(t, x, v), y) == GetModule(t, y)
    ensures DirectChild(View(SetValue(t, x, v)), y, Declarations) == DirectChild(View(t), y, Declarations)
  {
    SetValueKeepsShape(t, x, v, y, Name);
    if Find(t, y).Some? {
      var n := Find(t, y).value;
      SetValueInKeepsShape(Link(n.id, n.kind), n.children, x, v, y, Name);
    }
    SetValueView(t, x, v);
    var m := View(t);
    if y in m {
      FirstOfKindSameKinds(m, WithValue(m, x, v), m[y].childIds, Declarations);
    }
  }

  /** `t` is `t0` with some texts changed. */
  ghost predicate SameScopes(t0: Xnode, t: Xnode)
  {
    && Distinct(t) && IdsOf(t) == IdsOf(t0)
    && (forall c :: NameNode(t, c) == NameNode(t0, c))
    && (forall c :: GetModule(t, c) == GetModule(t0, c))
    && (forall x :: DirectChild(View(t), x, Declarations) == DirectChild(View(t0), x, Declarations))
  }

  /** What the renaming loop has done after its first `i` calls. */
  ghost predicate RenameSoFar(t0: Xnode, cs: seq<NodeId>, prefix: string, functions: set<string>, ignoreCase: bool,
                              t: Xnode, i: nat, scopes: set<NodeId>)
  {
    && i <= |cs| && SameScopes(t0, t)
    && Rename(t, cs[i..], prefix, functions, ignoreCase).tree == Rename(t0, cs, prefix, functions, ignoreCase).tree
    && scopes + Rename(t, cs[i..], prefix, functions, ignoreCase).scopes == Rename(t0, cs, prefix, functions, ignoreCase).scopes
  }

  lemma RenameStart(t0: Xnode, cs: seq<NodeId>, prefix: string, functions: set<string>, ignoreCase: bool)
    requires Distinct(t0)
    ensures RenameSoFar(t0, cs, prefix, functions, ignoreCase, t0, 0, {})
  {
    assert cs[0..] == cs;
  }

  /** One more call looked at, as the loop body does it. */
  lemma RenameNext(t0: Xnode, cs: seq<NodeId>, prefix: string, functions: set<string>, ignoreCase: bool,
                   t: Xnode, i: nat, scopes: set<NodeId>, t': Xnode, scopes': set<NodeId>)
    requires RenameSoFar(t0, cs, prefix, functions, ignoreCase, t, i, scopes) && i < |cs|
    requires !Matched(t, cs[i], functions, ignoreCase) ==> t' == t && scopes' == scopes
    requires Matched(t, cs[i], functions, ignoreCase) ==>
      var n := NameNode(t, cs[i]).value;
      && t' == SetValue(t, n, prefix + TextOf(t, n))
      && scopes' == scopes + if GetModule(t', cs[i]).Some? then {GetModule(t', cs[i]).value} else {}
    ensures RenameSoFar(t0, cs, prefix, functions, ignoreCase, t', i + 1, scopes')
  {
    assert cs[i..][0] == cs[i] && cs[i..][1..] == cs[i + 1..];
    if Matched(t, cs[i], functions, ignoreCase) {
      var n := NameNode(t, cs[i]).value;
      var v := prefix + TextOf(t, n);
      SetValueView(t, n, v);
      forall c ensures NameNode(t', c) == NameNode(t0, c) && GetModule(t', c) == GetModule(t0, c)
        && DirectChild(View(t'), c, Declarations) == DirectChild(View(t0), c, Declarations)
      {
        SetValueKeepsScopes(t, n, v, c);
      }
    }
  }

  lemma RenameEnd(t0: Xnode, cs: seq<NodeId>, prefix: string, functions: set<string>, ignoreCase: bool,
                  t: Xnode, scopes: set<NodeId>)
    requires RenameSoFar(t0, cs, prefix, functions, ignoreCase, t, |cs|, scopes)
    ensures t == Rename(t0, cs, prefix, functions, ignoreCase).tree
    ensures scopes == Rename(t0, cs, prefix, functions, ignoreCase).scopes
  {
    assert cs[|cs|..] == [];
  }

  /** Every scope `Rename` collects is the scope `getModule` finds for one of the calls. */
  lemma {:induction false} RenameScopesEnclose(t: Xnode, cs: seq<NodeId>, prefix: string, functions: set<string>, ignoreCase: bool)
    requires Distinct(t)
    ensures forall x | x in Rename(t, cs, prefix, functions, ignoreCase).scopes :: exists c :: c in cs && GetModule(t, c) == Some(x)
    decreases |cs|
  {
    if cs != [] {
      var r := Rename(t, cs, prefix, functions, ignoreCase);
      if !Matched(t, cs[0], functions, ignoreCase) {
        RenameScopesEnclose(t, cs[1..], prefix, functions, ignoreCase);
        assert r == Rename(t, cs[1..], prefix, functions, ignoreCase);
        forall x | x in r.scopes ensures exists c :: c in cs && GetModule(t, c) == Some(x) {
          var c :| c in cs[1..] && GetModule(t, c) == Some(x);
          assert c in cs;
        }
      } else {
        var n := NameNode(t, cs[0]).value;
        var t' := SetValue(t, n, prefix + TextOf(t, n));
        SetValueView(t, n, prefix + TextOf(t, n));
        RenameScopesEnclose(t', cs[1..], prefix, functions, ignoreCase);
        SetValueKeepsScopes(t, n, prefix + TextOf(t, n), cs[0]);
        forall x | x in r.scopes ensures exists c :: c in cs && GetModule(t, c) == Some(x) {
          if x !in Rename(t', cs[1..], prefix, functions, ignoreCase).scopes {
            assert cs[0] in cs && GetModule(t, cs[0]) == Some(x);
          } else {
            var c :| c in cs[1..] && GetModule(t', c) == Some(x);
            SetValueKeepsScopes(t, n, prefix + TextOf(t, n), c);
            assert c in cs;
          }
        }
      }
    }
  }

  /** No two calls of `cs` share a name node. */
  ghost predicate OwnNames(t: Xnode, cs: seq<NodeId>)
  {
    Named(t, cs) && forall i, j | 0 <= i < j < |cs| :: NameNode(t, cs[i]) != NameNode(t, cs[j])
  }

  /** The name nodes of the calls of `cs`. */
  ghost function NamesOf(t: Xnode, cs: seq<NodeId>): set<NodeId>
  {
    set i | 0 <= i < |cs| && NameNode(t, cs[i]).Some? :: NameNode(t, cs[i]).value
  }

  /** The first step of `Rename`, as facts about the tree it leaves for the other calls. */
  lemma RenameFirst(t: Xnode, cs: seq<NodeId>, prefix: string, functions: set<string>, ignoreCase: bool) returns (t': Xnode)
    requires Distinct(t) && OwnNames(t, cs) && cs != []
    ensures Distinct(t') && OwnNames(t', cs[1..])
    ensures var n := NameNode(t, cs[0]).value;
      View(t') == if Matched(t, cs[0], functions, ignoreCase) then WithValue(View(t), n, prefix + TextOf(t, n)) else View(t)
    ensures forall i | 1 <= i < |cs| ::
      NameNode(t', cs[i]) == NameNode(t, cs[i]) && (Matched(t', cs[i], functions, ignoreCase) <==> Matched(t, cs[i], functions, ignoreCase))
    ensures NamesOf(t', cs[1..]) == NamesOf(t, cs) - {NameNode(t, cs[0]).value}
    ensures forall c :: GetModule(t', c) == GetModule(t, c)
    ensures Rename(t, cs, prefix, functions, ignoreCase).tree == Rename(t', cs[1..], prefix, functions, ignoreCase).tree
    ensures forall x :: x in Rename(t, cs, prefix, functions, ignoreCase).scopes <==>
      x in Rename(t', cs[1..], prefix, functions, ignoreCase).scopes || (Matched(t, cs[0], functions, ignoreCase) && GetModule(t, cs[0]) == Some(x))
  {
    var n := NameNode(t, cs[0]).value;
    if Matched(t, cs[0], functions, ignoreCase) {
      t' := SetValue(t, n, prefix + TextOf(t, n));
      SetValueView(t, n, prefix + TextOf(t, n));
      forall c ensures NameNode(t', c) == NameNode(t, c) && GetModule(t', c) == GetModule(t, c) {
        SetValueKeepsScopes(t, n, prefix + TextOf(t, n), c);
      }
    } else {
      t' := t;
    }
    forall i | 1 <= i < |cs| ensures NameNode(t, cs[i]).value != n && TextOf(t', NameNode(t, cs[i]).value) == TextOf(t, NameNode(t, cs[i]).value) {
      assert NameNode(t, cs[0]) != NameNode(t, cs[i]);
    }
    forall i, j | 0 <= i < j < |cs| - 1 ensures NameNode(t', cs[1..][i]) != NameNode(t', cs[1..][j]) {
      assert cs[1..][i] == cs[i + 1] && cs[1..][j] == cs[j + 1];
    }
    NamesOfFirst(t, t', cs);
  }

  /** The name nodes of the later calls are those of all the calls but the first's. */
  lemma NamesOfFirst(t: Xnode, t': Xnode, cs: seq<NodeId>)
    requires OwnNames(t, cs) && cs != []
    requires forall i | 1 <= i < |cs| :: NameNode(t', cs[i]) == NameNode(t, cs[i])
    ensures NamesOf(t', cs[1..]) == NamesOf(t, cs) - {NameNode(t, cs[0]).value}
  {
    forall x | x in NamesOf(t, cs) - {NameNode(t, cs[0]).value} ensures x in NamesOf(t', cs[1..]) {
      var i :| 0 <= i < |cs| && NameNode(t, cs[i]).Some? && NameNode(t, cs[i]).value == x;
      assert cs[1..][i - 1] == cs[i];
    }
    forall x | x in NamesOf(t', cs[1..]) ensures x in NamesOf(t, cs) - {NameNode(t, cs[0]).value} {
      var i :| 0 <= i < |cs| - 1 && NameNode(t', cs[1..][i]).Some? && NameNode(t', cs[1..][i]).value == x;
      assert cs[1..][i] == cs[i + 1];
      assert NameNode(t, cs[0]) != NameNode(t, cs[i + 1]);
    }
  }

  /**
   * What the renaming does to the tree, without the fold, when no two calls
   * share a name node: no node comes or goes, the name node of each matched
   * call gets the prefix in front of its text, and nothing else changes.
   */
  lemma {:induction false} RenameTree(t: Xnode, cs: seq<NodeId>, prefix: string, functions: set<string>, ignoreCase: bool)
    requires Distinct(t) && OwnNames(t, cs)
    ensures var v, w := View(t), View(Rename(t, cs, prefix, functions, ignoreCase).tree);
      && (forall x :: x in w <==> x in v)
      && (forall x | x in v && x !in NamesOf(t, cs) :: w[x] == v[x])
      && (forall i | 0 <= i < |cs| :: var n := NameNode(t, cs[i]).value;
            n in v && w[n] == v[n].(value := if Matched(t, cs[i], functions, ignoreCase) then prefix + v[n].value else v[n].value))
    decreases |cs|
  {
    if cs != [] {
      var t' := RenameFirst(t, cs, prefix, functions, ignoreCase);
      RenameTree(t', cs[1..], prefix, functions, ignoreCase);
      RenameTreeStep(t, t', cs, prefix, functions, ignoreCase, View(Rename(t, cs, prefix, functions, ignoreCase).tree));
    }
  }

  /** The facts of `RenameTree` for the later calls on the tree after the first, carried back to the first tree. */
  lemma RenameTreeStep(t: Xnode, t': Xnode, cs: seq<NodeId>, prefix: string, functions: set<string>, ignoreCase: bool, w: map<NodeId, Info>)
    requires Distinct(t) && OwnNames(t, cs) && cs != []
    requires var n := NameNode(t, cs[0]).value;
      View(t') == if Matched(t, cs[0], functions, ignoreCase) then WithValue(View(t), n, prefix + TextOf(t, n)) else View(t)
    requires forall i | 1 <= i < |cs| ::
      NameNode(t', cs[i]) == NameNode(t, cs[i]) && (Matched(t', cs[i], functions, ignoreCase) <==> Matched(t, cs[i], functions, ignoreCase))
    requires NamesOf(t', cs[1..]) == NamesOf(t, cs) - {NameNode(t, cs[0]).value}
    requires var v := View(t');
      && (forall x :: x in w <==> x in v)
      && (forall x | x in v && x !in NamesOf(t', cs[1..]) :: w[x] == v[x])
      && (forall i | 0 <= i < |cs| - 1 :: var n := NameNode(t', cs[1..][i]).value;
            n in v && w[n] == v[n].(value := if Matched(t', cs[1..][i], functions, ignoreCase) then prefix + v[n].value else v[n].value))
    ensures var v := View(t);
      && (forall x :: x in w <==> x in v)
      && (forall x | x in v && x !in NamesOf(t, cs) :: w[x] == v[x])
      && (forall i | 0 <= i < |cs| :: var n := NameNode(t, cs[i]).value;
            n in v && w[n] == v[n].(value := if Matched(t, cs[i], functions, ignoreCase) then prefix + v[n].value else v[n].value))
  {
    var v, v' := View(t), View(t');
    var n0 := NameNode(t, cs[0]).value;
    NameNodeInTree(t, cs[0]);
    assert n0 in NamesOf(t, cs);
    assert n0 !in NamesOf(t', cs[1..]);
    forall i | 1 <= i < |cs|
      ensures var n := NameNode(t, cs[i]).value;
        n in v && w[n] == v[n].(value := if Matched(t, cs[i], functions, ignoreCase) then prefix + v[n].value else v[n].value)
    {
      assert cs[1..][i - 1] == cs[i];
      assert NameNode(t, cs[0]) != NameNode(t, cs[i]);
    }
  }

  /**
   * The scopes the renaming collects, without the fold, when no two calls
   * share a name node: exactly the scopes `getModule` finds for the matched
   * calls.
   */
  lemma {:induction false} RenameScopes(t: Xnode, cs: seq<NodeId>, prefix: string, functions: set<string>, ignoreCase: bool)
    requires Distinct(t) && OwnNames(t, cs)
    ensures forall x :: x in Rename(t, cs, prefix, functions, ignoreCase).scopes <==>
      exists i :: 0 <= i < |cs| && Matched(t, cs[i], functions, ignoreCase) && GetModule(t, cs[i]) == Some(x)
    decreases |cs|
  {
    if cs != [] {
      var t' := RenameFirst(t, cs, prefix, functions, ignoreCase);
      RenameScopes(t', cs[1..], prefix, functions, ignoreCase);
      forall x ensures x in Rename(t, cs, prefix, functions, ignoreCase).scopes <==>
        exists i :: 0 <= i < |cs| && Matched(t, cs[i], functions, ignoreCase) && GetModule(t, cs[i]) == Some(x)
      {
        if exists i :: 0 <= i < |cs| && Matched(t, cs[i], functions, ignoreCase) && GetModule(t, cs[i]) == Some(x) {
          var i :| 0 <= i < |cs| && Matched(t, cs[i], functions, ignoreCase) && GetModule(t, cs[i]) == Some(x);
          if i > 0 {
            assert cs[1..][i - 1] == cs[i];
          }
        }
        if x in Rename(t', cs[1..], prefix, functions, ignoreCase).scopes {
          var i :| 0 <= i < |cs| - 1 && Matched(t', cs[1..][i], functions, ignoreCase) && GetModule(t', cs[1..][i]) == Some(x);
          assert cs[1..][i] == cs[i + 1];
        }
      }
    }
  }

  // ---------------------------------------------------------------------
  // Adding the imports

  /** `xs` lists the elements of `s`, each once. */
  ghost predicate Enumerates<T(!new)>(xs: seq<T>, s: set<T>)
  {
    NoRepeats(xs) && |xs| == |s| && forall x :: x in xs <==> x in s
  }

  /** The declarations block (`matchDirectDescendant(DECLARATIONS)`) of each scope of `xs`, in order; a scope without one is passed over. */
  ghost function BlocksOf(v: map<NodeId, Info>, xs: seq<NodeId>): (ds: seq<NodeId>)
    ensures |ds| <= |xs|
  {
    if xs == [] then []
    else match DirectChild(v, xs[0], Declarations)
      case None => BlocksOf(v, xs[1..])
      case Some(d) => [d] + BlocksOf(v, xs[1..])
  }

  /**
   * `addUses` on the blocks `ds` in turn, with the module names `names`:
   * each block gets one `USE` per name, numbered from `b` on. A block that
   * is not a node of the view is passed over.
   */
  ghost function ImportedAll(v: map<NodeId, Info>, ds: seq<NodeId>, b: NodeId, names: seq<string>): map<NodeId, Info>
    decreases |ds|
  {
    if ds == [] then v
    else if ds[0] !in v then ImportedAll(v, ds[1..], b, names)
    else ImportedAll(PrependedUses(v, ds[0], b, names), ds[1..], b + |names|, names)
  }

  /** Adding no module to any block changes nothing. */
  lemma {:induction false} ImportedNone(v: map<NodeId, Info>, ds: seq<NodeId>, b: NodeId)
    ensures ImportedAll(v, ds, b, []) == v
    decreases |ds|
  {
    if ds != [] {
      ImportedNone(v, ds[1..], b);
    }
  }

  /** `k * n`, written as repeated addition so that the proofs about the identifiers stay linear. */
  function Times(k: nat, n: nat): nat
  {
    if k == 0 then 0 else Times(k - 1, n) + n
  }

  lemma {:induction false} TimesIsMul(k: nat, n: nat)
    ensures Times(k, n) == k * n
  {
    if k > 0 {
      TimesIsMul(k - 1, n);
      assert k * n == (k - 1) * n + n;
    }
  }

  lemma {:induction false} DescendingSpec(b: NodeId, n: nat)
    ensures |Descending(b, n)| == n
    ensures forall k | 0 <= k < n :: Descending(b, n)[k] == b + n - 1 - k
  {
    if n > 0 {
      DescendingSpec(b, n - 1);
    }
  }

  /** One `addUses` call adds the identifiers from `b` on and changes no node but the block. */
  lemma UsesFrame(v: map<NodeId, Info>, d: NodeId, b: NodeId, names: seq<string>, v1: map<NodeId, Info>)
    requires d in v && forall z | z in v :: z < b
    requires v1 == PrependedUses(v, d, b, names)
    ensures forall z :: z in v1 <==> z in v || b <= z < b + |names|
    ensures forall z | z in v && z != d :: z in v1 && v1[z] == v[z]
  {
    PrependedUsesSpec(v, d, b, names);
  }

  /**
   * In `r`, block `d` of `v` has one new `USE` node per element of `names`
   * in front of its old children, the last name first, and is otherwise as
   * it was.
   */
  ghost predicate UsesFirst(v: map<NodeId, Info>, r: map<NodeId, Info>, d: NodeId, names: seq<string>)
    requires d in v
  {
    && d in r && |r[d].childIds| == |names| + |v[d].childIds|
    && r[d] == v[d].(childIds := r[d].childIds)
    && r[d].childIds[|names|..] == v[d].childIds
    && forall k | 0 <= k < |names| ::
         r[d].childIds[k] in r && r[d].childIds[k] !in v && r[r[d].childIds[k]] == UseInfo(names[|names| - 1 - k])
  }

  /** One `addUses` call puts the `USE`s first in the block. */
  lemma UsesFirstOnce(v: map<NodeId, Info>, d: NodeId, b: NodeId, names: seq<string>)
    requires d in v && forall z | z in v :: z < b
    ensures UsesFirst(v, PrependedUses(v, d, b, names), d, names)
  {
    PrependedUsesSpec(v, d, b, names);
    AddedFirst(v, PrependedUses(v, d, b, names), d, b, names);
  }

  /** The `USE`s `UsesAdded` describes are first in the block. */
  lemma AddedFirst(v: map<NodeId, Info>, r: map<NodeId, Info>, d: NodeId, b: NodeId, names: seq<string>)
    requires d in v && (forall z | z in v :: z < b) && UsesAdded(v, r, d, b, names)
    ensures UsesFirst(v, r, d, names)
  {
    DescendingSpec(b, |names|);
    var n := |names|;
    assert r[d].childIds[..n] == Descending(b, n);
    forall k | 0 <= k < n ensures r[d].childIds[k] in r && r[d].childIds[k] !in v && r[r[d].childIds[k]] == UseInfo(names[n - 1 - k]) {
      assert r[d].childIds[k] == b + (n - 1 - k);
    }
  }

  /** Later `addUses` calls on other blocks leave a block's `USE`s where they are. */
  lemma UsesFirstKept(v: map<NodeId, Info>, v1: map<NodeId, Info>, r: map<NodeId, Info>, d: NodeId, names: seq<string>)
    requires d in v && UsesFirst(v, v1, d, names)
    requires forall z | z in v1 && z !in v :: z in r && r[z] == v1[z]
    requires d in r && r[d] == v1[d]
    ensures UsesFirst(v, r, d, names)
  {
  }

  /** A block the first call did not touch has, after the later calls, its `USE`s in front of what it had at the start. */
  lemma UsesFirstEarlier(v: map<NodeId, Info>, v1: map<NodeId, Info>, r: map<NodeId, Info>, d: NodeId, names: seq<string>)
    requires d in v && d in v1 && v1[d] == v[d] && UsesFirst(v1, r, d, names)
    requires forall z | z in v :: z in v1
    ensures UsesFirst(v, r, d, names)
  {
  }

  /** The blocks `ds` are distinct nodes of the view, and the identifiers from `b` on are free. */
  ghost predicate BlocksReady(v: map<NodeId, Info>, ds: seq<NodeId>, b: NodeId)
  {
    && (forall z | z in v :: z < b) && NoRepeats(ds)
    && forall i | 0 <= i < |ds| :: ds[i] in v
  }

  /** `ImportedAll` on a block of the view, one step. */
  lemma ImportedAllCons(v: map<NodeId, Info>, ds: seq<NodeId>, b: NodeId, names: seq<string>, v': map<NodeId, Info>, b': NodeId)
    requires ds != [] && ds[0] in v
    requires v' == PrependedUses(v, ds[0], b, names) && b' == b + |names|
    ensures ImportedAll(v, ds, b, names) == ImportedAll(v', ds[1..], b', names)
  {
  }

  /** After the first block's `USE`s, the other blocks are still ready. */
  lemma BlocksReadyNext(v: map<NodeId, Info>, ds: seq<NodeId>, b: NodeId, names: seq<string>, v': map<NodeId, Info>, b': NodeId)
    requires BlocksReady(v, ds, b) && ds != []
    requires v' == PrependedUses(v, ds[0], b, names) && b' == b + |names|
    ensures BlocksReady(v', ds[1..], b')
  {
    UsesFrame(v, ds[0], b, names, v');
    forall i | 0 <= i < |ds| - 1 ensures ds[1..][i] in v' {
      assert ds[1..][i] == ds[i + 1];
    }
    forall i, j | 0 <= i < j < |ds| - 1 ensures ds[1..][i] != ds[1..][j] {
      assert ds[1..][i] == ds[i + 1] && ds[1..][j] == ds[j + 1];
    }
  }

  /**
   * The first step of `ImportedAll`, as facts about its result: the view
   * after the first block's `USE`s, from which the rest of the fold goes on.
   */
  lemma ImportedAllFirst(v: map<NodeId, Info>, ds: seq<NodeId>, b: NodeId, names: seq<string>) returns (v1: map<NodeId, Info>)
    requires BlocksReady(v, ds, b) && ds != []
    ensures BlocksReady(v1, ds[1..], b + |names|) && ds[0] in v
    ensures ImportedAll(v, ds, b, names) == ImportedAll(v1, ds[1..], b + |names|, names)
    ensures UsesFirst(v, v1, ds[0], names)
    ensures forall z :: z in v1 <==> z in v || b <= z < b + |names|
    ensures forall z | z in v && z != ds[0] :: z in v1 && v1[z] == v[z]
  {
    v1 := PrependedUses(v, ds[0], b, names);
    ImportedAllCons(v, ds, b, names, v1, b + |names|);
    BlocksReadyNext(v, ds, b, names, v1, b + |names|);
    UsesFrame(v, ds[0], b, names, v1);
    UsesFirstOnce(v, ds[0], b, names);
  }

  /** The nodes `ImportedAll` adds are the identifiers from `b` up to `e`, one per block and name. */
  lemma {:induction false} ImportedAllKeys(v: map<NodeId, Info>, ds: seq<NodeId>, b: NodeId, names: seq<string>, e: int, r: map<NodeId, Info>)
    requires BlocksReady(v, ds, b) && e == b + Times(|ds|, |names|) && r == ImportedAll(v, ds, b, names)
    ensures forall z :: z in r <==> z in v || b <= z < e
    decreases |ds|
  {
    if ds != [] {
      var v1 := ImportedAllFirst(v, ds, b, names);
      ImportedAllKeys(v1, ds[1..], b + |names|, names, e, r);
      KeysCompose(v, v1, r, b, b + |names|, e);
    }
  }

  /** Two runs of fresh identifiers, one after the other, make one run. */
  lemma KeysCompose(v: map<NodeId, Info>, v1: map<NodeId, Info>, r: map<NodeId, Info>, b: int, m: int, e: int)
    requires b <= m <= e
    requires forall z :: z in v1 <==> z in v || b <= z < m
    requires forall z :: z in r <==> z in v1 || m <= z < e
    ensures forall z :: z in r <==> z in v || b <= z < e
  {
  }

  /** `ImportedAll` changes no node of the view but the blocks. */
  lemma {:induction false} ImportedAllKeeps(v: map<NodeId, Info>, ds: seq<NodeId>, b: NodeId, names: seq<string>, r: map<NodeId, Info>)
    requires BlocksReady(v, ds, b) && r == ImportedAll(v, ds, b, names)
    ensures forall z | z in v && z !in ds :: z in r && r[z] == v[z]
    decreases |ds|
  {
    if ds != [] {
      var v1 := ImportedAllFirst(v, ds, b, names);
      ImportedAllKeeps(v1, ds[1..], b + |names|, names, r);
      KeepsCompose(v, v1, r, ds);
    }
  }

  /** A node kept by the first step and then by the rest is kept by both. */
  lemma KeepsCompose(v: map<NodeId, Info>, v1: map<NodeId, Info>, r: map<NodeId, Info>, ds: seq<NodeId>)
    requires ds != []
    requires forall z | z in v && z != ds[0] :: z in v1 && v1[z] == v[z]
    requires forall z | z in v1 && z !in ds[1..] :: z in r && r[z] == v1[z]
    ensures forall z | z in v && z !in ds :: z in r && r[z] == v[z]
  {
    forall z | z in v && z !in ds ensures z in r && r[z] == v[z] {
      assert z != ds[0] && z !in ds[1..] by {
        assert ds == [ds[0]] + ds[1..];
      }
    }
  }

  /**
   * What `ImportedAll` does to the blocks, without the fold: each block
   * gets one new `USE` per name in front of its old children.
   */
  lemma {:induction false} ImportedAllUses(v: map<NodeId, Info>, ds: seq<NodeId>, b: NodeId, names: seq<string>, r: map<NodeId, Info>)
    requires BlocksReady(v, ds, b) && r == ImportedAll(v, ds, b, names)
    ensures forall i | 0 <= i < |ds| :: UsesFirst(v, r, ds[i], names)
    decreases |ds|
  {
    if ds != [] {
      var v1 := ImportedAllFirst(v, ds, b, names);
      ImportedAllUses(v1, ds[1..], b + |names|, names, r);
      ImportedAllKeeps(v1, ds[1..], b + |names|, names, r);
      UsesCompose(v, v1, r, ds, names);
    }
  }

  /** The first block's `USE`s, and those the rest of the fold adds to the other blocks, are all in the result. */
  lemma UsesCompose(v: map<NodeId, Info>, v1: map<NodeId, Info>, r: map<NodeId, Info>, ds: seq<NodeId>, names: seq<string>)
    requires ds != [] && NoRepeats(ds) && forall i | 0 <= i < |ds| :: ds[i] in v
    requires forall z | z in v :: z in v1
    requires forall z | z in v && z != ds[0] :: v1[z] == v[z]
    requires UsesFirst(v, v1, ds[0], names)
    requires forall z | z in v1 && z !in ds[1..] :: z in r && r[z] == v1[z]
    requires forall i | 0 <= i < |ds[1..]| :: ds[1..][i] in v1 && UsesFirst(v1, r, ds[1..][i], names)
    ensures forall i | 0 <= i < |ds| :: UsesFirst(v, r, ds[i], names)
  {
    assert ds[0] !in ds[1..];
    UsesFirstKept(v, v1, r, ds[0], names);
    forall i | 0 < i < |ds| ensures UsesFirst(v, r, ds[i], names) {
      assert ds[1..][i - 1] == ds[i];
      UsesFirstEarlier(v, v1, r, ds[i], names);
    }
  }

  /** Every child listed in the view is a node of the view. */
  ghost predicate Closed(v: map<NodeId, Info>)
  {
    forall z, c | z in v && c in v[z].childIds :: c in v
  }

  lemma ViewClosed(t: Xnode)
    requires Distinct(t)
    ensures Closed(View(t))
  {
    forall z | z in View(t) ensures forall c | c in View(t)[z].childIds :: c in View(t) {
      NotOwnChild(t, z);
    }
  }

  /** The `USE`s `addUses` adds have no children, and their block lists only nodes of the view. */
  lemma UsesKeepClosed(v: map<NodeId, Info>, d: NodeId, b: NodeId, names: seq<string>)
    requires Closed(v) && d in v && forall z | z in v :: z < b
    ensures Closed(PrependedUses(v, d, b, names))
  {
    var r := PrependedUses(v, d, b, names);
    PrependedUsesSpec(v, d, b, names);
    DescendingSpec(b, |names|);
    forall z | z in r && z !in v ensures r[z].childIds == [] {
      assert r[b + (z - b)] == UseInfo(names[z - b]);
    }
    forall z, c | z in r && c in r[z].childIds ensures c in r {
      if z == d && c in Descending(b, |names|) {
        var k :| 0 <= k < |names| && Descending(b, |names|)[k] == c;
      }
    }
  }

  /** `addUses` on one block leaves every other node, and the declarations block it has, as it was. */
  lemma DirectChildAfterUses(v: map<NodeId, Info>, d: NodeId, b: NodeId, names: seq<string>, y: NodeId)
    requires Closed(v) && d in v && (forall z | z in v :: z < b) && y in v && y != d
    ensures var r := PrependedUses(v, d, b, names);
      && y in r && r[y] == v[y]
      && DirectChild(r, y, Declarations) == DirectChild(v, y, Declarations)
  {
    var r := PrependedUses(v, d, b, names);
    PrependedUsesSpec(v, d, b, names);
    FirstOfKindSameKinds(v, r, v[y].childIds, Declarations);
  }

  /** What the import loop has done after its first `j` scopes, whose blocks are `ds`. */
  ghost predicate ImportsSoFar(v1: map<NodeId, Info>, xs: seq<NodeId>, ds: seq<NodeId>, names: seq<string>, b1: NodeId,
                               v: map<NodeId, Info>, j: nat, b: NodeId)
  {
    && j <= |xs| == |ds| && b == b1 + Times(j, |names|)
    && Closed(v) && BlocksReady(v, ds[j..], b)
    && (forall i | j <= i < |xs| :: xs[i] in v && v[xs[i]].kind != Declarations && DirectChild(v, xs[i], Declarations) == Some(ds[i]))
    && ImportedAll(v, ds[j..], b, names) == ImportedAll(v1, ds, b1, names)
  }

  /** The scope the loop is at has its block. */
  lemma ImportsAt(v1: map<NodeId, Info>, xs: seq<NodeId>, ds: seq<NodeId>, names: seq<string>, b1: NodeId,
                  v: map<NodeId, Info>, j: nat, b: NodeId)
    requires ImportsSoFar(v1, xs, ds, names, b1, v, j, b) && j < |xs|
    ensures DirectChild(v, xs[j], Declarations) == Some(ds[j])
  {
  }

  lemma ImportsNext(v1: map<NodeId, Info>, xs: seq<NodeId>, ds: seq<NodeId>, names: seq<string>, b1: NodeId,
                    v: map<NodeId, Info>, j: nat, b: NodeId, v': map<NodeId, Info>, b': NodeId)
    requires ImportsSoFar(v1, xs, ds, names, b1, v, j, b) && j < |xs|
    requires v' == PrependedUses(v, ds[j], b, names) && b' == b + |names|
    ensures ImportsSoFar(v1, xs, ds, names, b1, v', j + 1, b')
  {
    assert ds[j..][0] == ds[j] && ds[j..][1..] == ds[j + 1..];
    BlocksReadyNext(v, ds[j..], b, names, v', b');
    ImportedAllCons(v, ds[j..], b, names, v', b');
    UsesKeepClosed(v, ds[j], b, names);
    forall i | j + 1 <= i < |xs|
      ensures xs[i] in v' && v'[xs[i]].kind != Declarations && DirectChild(v', xs[i], Declarations) == Some(ds[i])
    {
      assert v[ds[j]].kind == Declarations;
      DirectChildAfterUses(v, ds[j], b, names, xs[i]);
    }
  }

  lemma ImportsEnd(v1: map<NodeId, Info>, xs: seq<NodeId>, ds: seq<NodeId>, names: seq<string>, b1: NodeId,
                   v: map<NodeId, Info>, b: NodeId)
    requires ImportsSoFar(v1, xs, ds, names, b1, v, |xs|, b)
    ensures v == ImportedAll(v1, ds, b1, names) && b == b1 + Times(|xs|, |names|)
  {
    assert ds[|ds|..] == [];
  }

  /** A declarations block found by `matchDirectDescendant` is a child of the node, so it has no other parent. */
  lemma BlockParent(t: Xnode, x: NodeId, y: NodeId)
    requires Distinct(t) && DirectChild(View(t), x, Declarations).Some?
    requires DirectChild(View(t), y, Declarations) == DirectChild(View(t), x, Declarations)
    ensures x == y
  {
    var d := DirectChild(View(t), x, Declarations).value;
    UniqueParent(t, x, y, d);
  }

  /** When every scope has a declarations block, `BlocksOf` lists them one for one. */
  lemma {:induction false} BlocksOfAll(v: map<NodeId, Info>, xs: seq<NodeId>)
    requires forall i | 0 <= i < |xs| :: DirectChild(v, xs[i], Declarations).Some?
    ensures |BlocksOf(v, xs)| == |xs|
    ensures forall i | 0 <= i < |xs| :: DirectChild(v, xs[i], Declarations) == Some(BlocksOf(v, xs)[i])
  {
    if xs != [] {
      forall i | 0 <= i < |xs| - 1 ensures DirectChild(v, xs[1..][i], Declarations).Some? {
        assert xs[1..][i] == xs[i + 1];
      }
      BlocksOfAll(v, xs[1..]);
      forall i | 0 < i < |xs| ensures DirectChild(v, xs[i], Declarations) == Some(BlocksOf(v, xs)[i]) {
        assert xs[1..][i - 1] == xs[i];
      }
    }
  }

  /** The scopes the renaming collects are nodes of the tree other than declarations blocks, each with a declarations block. */
  lemma ScopesReady(t0: Xnode, cs: seq<NodeId>, prefix: string, functions: set<string>, ignoreCase: bool, t1: Xnode)
    requires Distinct(t0) && SameScopes(t0, t1)
    requires forall x | x in Rename(t0, cs, prefix, functions, ignoreCase).scopes :: DirectChild(View(t0), x, Declarations).Some?
    ensures forall x | x in Rename(t0, cs, prefix, functions, ignoreCase).scopes ::
      x in View(t1) && View(t1)[x].kind != Declarations && DirectChild(View(t1), x, Declarations).Some?
  {
    RenameScopesEnclose(t0, cs, prefix, functions, ignoreCase);
    forall x | x in Rename(t0, cs, prefix, functions, ignoreCase).scopes
      ensures x in View(t1) && View(t1)[x].kind != Declarations && DirectChild(View(t1), x, Declarations).Some?
    {
      var c :| c in cs && GetModule(t0, c) == Some(x);
      assert GetModule(t1, c) == Some(x);
      GetModuleEncloses(t1, c);
    }
  }

  /** The declarations blocks of distinct scopes of a tree are distinct nodes, listed one per scope by `BlocksOf`. */
  lemma BlocksStart(t: Xnode, b: NodeId, scopes: set<NodeId>, xs: seq<NodeId>)
    requires Distinct(t) && (forall z | z in IdsOf(t) :: z < b) && Enumerates(xs, scopes)
    requires forall x | x in scopes :: x in View(t) && View(t)[x].kind != Declarations && DirectChild(View(t), x, Declarations).Some?
    ensures var v, ds := View(t), BlocksOf(View(t), xs);
      && |ds| == |xs| && BlocksReady(v, ds, b)
      && forall i | 0 <= i < |xs| :: xs[i] in v && v[xs[i]].kind != Declarations && DirectChild(v, xs[i], Declarations) == Some(ds[i])
  {
    var v := View(t);
    var ds := BlocksOf(v, xs);
    forall i | 0 <= i < |xs| ensures xs[i] in v && v[xs[i]].kind != Declarations && DirectChild(v, xs[i], Declarations).Some? {
      assert xs[i] in xs;
    }
    BlocksOfAll(v, xs);
    forall i | 0 <= i < |ds| ensures ds[i] in v {
      assert DirectChild(v, xs[i], Declarations) == Some(ds[i]);
    }
    forall i, j | 0 <= i < j < |ds| ensures ds[i] != ds[j] {
      if ds[i] == ds[j] {
        BlockParent(t, xs[i], xs[j]);
      }
    }
    assert NoRepeats(ds);
    assert forall z | z in v :: z < b by {
      assert IdsOf(t) == v.Keys;
    }
  }

  /** The import loop starts ready. */
  lemma ImportsStart(t: Xnode, b: NodeId, scopes: set<NodeId>, xs: seq<NodeId>, names: seq<string>)
    requires Distinct(t) && (forall z | z in IdsOf(t) :: z < b) && Enumerates(xs, scopes)
    requires forall x | x in scopes :: x in View(t) && View(t)[x].kind != Declarations && DirectChild(View(t), x, Declarations).Some?
    ensures ImportsSoFar(View(t), xs, BlocksOf(View(t), xs), names, b, View(t), 0, b)
  {
    ViewClosed(t);
    BlocksStart(t, b, scopes, xs);
    assert BlocksOf(View(t), xs)[0..] == BlocksOf(View(t), xs);
  }

  /**
   * `v` is what adding the imports to the view `v1` gives, for some
   * iteration order of the set of scopes and of the set of modules (Java's
   * `HashSet` fixes neither), with identifiers handed out from `b` to `next`.
   */
  ghost predicate Shadowed(v1: map<NodeId, Info>, scopes: set<NodeId>, modules: set<string>, b: NodeId,
                           v: map<NodeId, Info>, next: NodeId)
  {
    exists xs: seq<NodeId>, names: seq<string> ::
      && Enumerates(xs, scopes) && Enumerates(names, modules)
      && v == ImportedAll(v1, BlocksOf(v1, xs), b, names) && next == b + Times(|xs|, |names|)
  }

  /** The orders the loop took witness `Shadowed`. */
  lemma ShadowedBy(v1: map<NodeId, Info>, scopes: set<NodeId>, modules: set<string>, b: NodeId,
                   v: map<NodeId, Info>, next: NodeId, xs: seq<NodeId>, names: seq<string>)
    requires NoRepeats(xs) && |xs| == |scopes| && forall x :: x in xs <==> x in scopes
    requires NoRepeats(names) && |names| == |modules| && forall m :: m in names <==> m in modules
    requires v == ImportedAll(v1, BlocksOf(v1, xs), b, names) && next == b + Times(|xs|, |names|)
    ensures Shadowed(v1, scopes, modules, b, v, next)
  {
    assert Enumerates(xs, scopes) && Enumerates(names, modules);
  }

  /** In `r`, the declarations block of every scope has the `USE`s of `names` first (see `UsesFirst`). */
  ghost predicate ScopesImport(v: map<NodeId, Info>, scopes: set<NodeId>, r: map<NodeId, Info>, names: seq<string>)
  {
    forall x | x in scopes && DirectChild(v, x, Declarations).Some? ::
      DirectChild(v, x, Declarations).value in v && UsesFirst(v, r, DirectChild(v, x, Declarations).value, names)
  }

  /** The declarations blocks of the scopes. */
  ghost function ScopeBlocks(v: map<NodeId, Info>, scopes: set<NodeId>): set<NodeId>
  {
    set x | x in scopes && DirectChild(v, x, Declarations).Some? :: DirectChild(v, x, Declarations).value
  }

  /**
   * What adding the imports does, without the fold and whatever the
   * iteration orders: one new node per scope and module, numbered from `b`;
   * in each scope's declarations block the same sequence of `USE`s, one per
   * module, in front of its old children; and no other node changed.
   */
  lemma ShadowedSpec(t1: Xnode, scopes: set<NodeId>, modules: set<string>, b: NodeId, v: map<NodeId, Info>, next: NodeId)
    requires Distinct(t1) && (forall z | z in IdsOf(t1) :: z < b)
    requires forall x | x in scopes :: x in View(t1) && View(t1)[x].kind != Declarations && DirectChild(View(t1), x, Declarations).Some?
    requires Shadowed(View(t1), scopes, modules, b, v, next)
    ensures next == b + |scopes| * |modules|
    ensures forall z :: z in v <==> z in View(t1) || b <= z < next
    ensures forall z | z in View(t1) && z !in ScopeBlocks(View(t1), scopes) :: v[z] == View(t1)[z]
    ensures exists names :: Enumerates(names, modules) && ScopesImport(View(t1), scopes, v, names)
  {
    var v1 := View(t1);
    var xs, names :| && Enumerates(xs, scopes) && Enumerates(names, modules)
      && v == ImportedAll(v1, BlocksOf(v1, xs), b, names) && next == b + Times(|xs|, |names|);
    var ds := BlocksOf(v1, xs);
    BlocksStart(t1, b, scopes, xs);
    TimesIsMul(|xs|, |names|);
    ImportedAllKeys(v1, ds, b, names, next, v);
    ImportedAllKeeps(v1, ds, b, names, v);
    ImportedAllUses(v1, ds, b, names, v);
    forall i | 0 <= i < |ds| ensures ds[i] in ScopeBlocks(v1, scopes) {
      assert xs[i] in xs;
    }
    forall x | x in scopes ensures DirectChild(v1, x, Declarations).value in v1 && UsesFirst(v1, v, DirectChild(v1, x, Declarations).value, names) {
      var i :| 0 <= i < |xs| && xs[i] == x;
    }
    assert ScopesImport(v1, scopes, v, names);
  }

  /** A scope no matched call is in keeps its declarations block as it was. */
  lemma OtherScopeKept(t1: Xnode, scopes: set<NodeId>, y: NodeId, v: map<NodeId, Info>)
    requires Distinct(t1) && y !in scopes && DirectChild(View(t1), y, Declarations).Some?
    requires forall z | z in View(t1) && z !in ScopeBlocks(View(t1), scopes) :: z in v && v[z] == View(t1)[z]
    ensures var d := DirectChild(View(t1), y, Declarations).value;
      d in v && v[d] == View(t1)[d]
  {
    var d := DirectChild(View(t1), y, Declarations).value;
    if d in ScopeBlocks(View(t1), scopes) {
      var x :| x in scopes && DirectChild(View(t1), x, Declarations).Some? && DirectChild(View(t1), x, Declarations).value == d;
      BlockParent(t1, y, x);
    }
  }

  /** The renaming moves no node, and keeps the scopes and declarations blocks it finds. */
  lemma {:induction false} RenameSameScopes(t: Xnode, cs: seq<NodeId>, prefix: string, functions: set<string>, ignoreCase: bool)
    requires Distinct(t)
    ensures SameScopes(t, Rename(t, cs, prefix, functions, ignoreCase).tree)
    decreases |cs|
  {
    if cs != [] {
      if !Matched(t, cs[0], functions, ignoreCase) {
        RenameSameScopes(t, cs[1..], prefix, functions, ignoreCase);
      } else {
        var n := NameNode(t, cs[0]).value;
        var t' := SetValue(t, n, prefix + TextOf(t, n));
        SetValueView(t, n, prefix + TextOf(t, n));
        forall c ensures NameNode(t', c) == NameNode(t, c) && GetModule(t', c) == GetModule(t, c)
          && DirectChild(View(t'), c, Declarations) == DirectChild(View(t), c, Declarations)
        {
          SetValueKeepsScopes(t, n, prefix + TextOf(t, n), c);
        }
        RenameSameScopes(t', cs[1..], prefix, functions, ignoreCase);
      }
    }
  }

  /** The imports stated against the tree before the renaming, whose blocks the renaming left alone. */
  lemma ScopesImportBack(v0: map<NodeId, Info>, v1: map<NodeId, Info>, scopes: set<NodeId>, v: map<NodeId, Info>, names: seq<string>)
    requires forall z :: z in v1 <==> z in v0
    requires forall x | x in scopes :: DirectChild(v1, x, Declarations) == DirectChild(v0, x, Declarations)
    requires forall x | x in scopes && DirectChild(v0, x, Declarations).Some? ::
      v1[DirectChild(v0, x, Declarations).value] == v0[DirectChild(v0, x, Declarations).value]
    requires ScopesImport(v1, scopes, v, names)
    ensures ScopesImport(v0, scopes, v, names)
  {
  }

  /** No name node of a call is the declarations block of a scope: the two differ in kind. */
  lemma BlocksAreNotNames(t0: Xnode, cs: seq<NodeId>, scopes: set<NodeId>)
    requires Distinct(t0)
    ensures forall z | z in ScopeBlocks(View(t0), scopes) :: z in View(t0) && z !in NamesOf(t0, cs)
  {
    forall z | z in ScopeBlocks(View(t0), scopes) ensures z in View(t0) && z !in NamesOf(t0, cs) {
      var x :| x in scopes && DirectChild(View(t0), x, Declarations).Some? && DirectChild(View(t0), x, Declarations).value == z;
      if z in NamesOf(t0, cs) {
        var i :| 0 <= i < |cs| && NameNode(t0, cs[i]).Some? && NameNode(t0, cs[i]).value == z;
        NameNodeInTree(t0, cs[i]);
      }
    }
  }

  /** The renamed tree meets what the imports need, with the blocks of the tree it came from. */
  lemma RenamedReady(t0: Xnode, prefix: string, functions: set<string>, ignoreCase: bool, b: NodeId)
    requires Distinct(t0) && (forall z | z in IdsOf(t0) :: z < b)
    requires forall x | x in Rename(t0, MatchAll(t0, FunctionCall), prefix, functions, ignoreCase).scopes ::
      DirectChild(View(t0), x, Declarations).Some?
    ensures var r := Rename(t0, MatchAll(t0, FunctionCall), prefix, functions, ignoreCase);
      && Distinct(r.tree) && (forall z | z in IdsOf(r.tree) :: z < b) && IdsOf(r.tree) == IdsOf(t0)
      && (forall x | x in r.scopes :: x in View(r.tree) && View(r.tree)[x].kind != Declarations && DirectChild(View(r.tree), x, Declarations).Some?)
      && (forall x :: DirectChild(View(r.tree), x, Declarations) == DirectChild(View(t0), x, Declarations))
      && ScopeBlocks(View(r.tree), r.scopes) == ScopeBlocks(View(t0), r.scopes)
  {
    var cs := MatchAll(t0, FunctionCall);
    var r := Rename(t0, cs, prefix, functions, ignoreCase);
    RenameSameScopes(t0, cs, prefix, functions, ignoreCase);
    ScopesReady(t0, cs, prefix, functions, ignoreCase, r.tree);
    assert ScopeBlocks(View(r.tree), r.scopes) == ScopeBlocks(View(t0), r.scopes);
  }

  /** The imports, stated on the renamed tree but with the blocks of the tree the renaming started from. */
  lemma RenamedShadowed(t0: Xnode, prefix: string, functions: set<string>, modules: set<string>, ignoreCase: bool,
                        b: NodeId, v: map<NodeId, Info>, next: NodeId)
    requires Distinct(t0) && (forall z | z in IdsOf(t0) :: z < b)
    requires forall x | x in Rename(t0, MatchAll(t0, FunctionCall), prefix, functions, ignoreCase).scopes ::
      DirectChild(View(t0), x, Declarations).Some?
    requires var r := Rename(t0, MatchAll(t0, FunctionCall), prefix, functions, ignoreCase);
      Shadowed(View(r.tree), r.scopes, modules, b, v, next)
    ensures var r := Rename(t0, MatchAll(t0, FunctionCall), prefix, functions, ignoreCase);
      var v0, v1 := View(t0), View(r.tree);
      && next == b + |r.scopes| * |modules|
      && (forall z :: z in v <==> z in v0 || b <= z < next)
      && (forall z | z in v1 && z !in ScopeBlocks(v0, r.scopes) :: z in v && v[z] == v1[z])
      && (forall x :: DirectChild(v1, x, Declarations) == DirectChild(v0, x, Declarations))
      && (exists names :: Enumerates(names, modules) && ScopesImport(v1, r.scopes, v, names))
  {
    var r := Rename(t0, MatchAll(t0, FunctionCall), prefix, functions, ignoreCase);
    RenamedReady(t0, prefix, functions, ignoreCase, b);
    ShadowedSpec(r.tree, r.scopes, modules, b, v, next);
  }

  /** The scopes and the imports of the whole pass (see `PassSpec`). */
  lemma PassImports(t0: Xnode, prefix: string, functions: set<string>, modules: set<string>, ignoreCase: bool,
                    b: NodeId, v: map<NodeId, Info>, next: NodeId)
    requires Distinct(t0) && (forall z | z in IdsOf(t0) :: z < b)
    requires OwnNames(t0, MatchAll(t0, FunctionCall))
    requires forall x | x in Rename(t0, MatchAll(t0, FunctionCall), prefix, functions, ignoreCase).scopes ::
      DirectChild(View(t0), x, Declarations).Some?
    requires var r := Rename(t0, MatchAll(t0, FunctionCall), prefix, functions, ignoreCase);
      Shadowed(View(r.tree), r.scopes, modules, b, v, next)
    ensures var scopes := Rename(t0, MatchAll(t0, FunctionCall), prefix, functions, ignoreCase).scopes;
      && next == b + |scopes| * |modules|
      && (forall z :: z in v <==> z in View(t0) || b <= z < next)
      && (exists names :: Enumerates(names, modules) && ScopesImport(View(t0), scopes, v, names))
  {
    var cs := MatchAll(t0, FunctionCall);
    var r := Rename(t0, cs, prefix, functions, ignoreCase);
    var v0, v1 := View(t0), View(r.tree);
    RenamedShadowed(t0, prefix, functions, modules, ignoreCase, b, v, next);
    RenameTree(t0, cs, prefix, functions, ignoreCase);
    BlocksAreNotNames(t0, cs, r.scopes);
    var names :| Enumerates(names, modules) && ScopesImport(v1, r.scopes, v, names);
    ScopesImportBack(v0, v1, r.scopes, v, names);
  }

  /** The names of the whole pass (see `PassSpec`). */
  lemma PassNames(t0: Xnode, prefix: string, functions: set<string>, modules: set<string>, ignoreCase: bool,
                  b: NodeId, v: map<NodeId, Info>, next: NodeId)
    requires Distinct(t0) && (forall z | z in IdsOf(t0) :: z < b)
    requires OwnNames(t0, MatchAll(t0, FunctionCall))
    requires forall x | x in Rename(t0, MatchAll(t0, FunctionCall), prefix, functions, ignoreCase).scopes ::
      DirectChild(View(t0), x, Declarations).Some?
    requires var r := Rename(t0, MatchAll(t0, FunctionCall), prefix, functions, ignoreCase);
      Shadowed(View(r.tree), r.scopes, modules, b, v, next)
    ensures var cs, v0 := MatchAll(t0, FunctionCall), View(t0);
      forall i | 0 <= i < |cs| :: var n := NameNode(t0, cs[i]).value;
        n in v0 && n in v && v[n] == v0[n].(value := if Matched(t0, cs[i], functions, ignoreCase) then prefix + v0[n].value else v0[n].value)
  {
    var cs := MatchAll(t0, FunctionCall);
    var r := Rename(t0, cs, prefix, functions, ignoreCase);
    var v0, v1 := View(t0), View(r.tree);
    RenamedShadowed(t0, prefix, functions, modules, ignoreCase, b, v, next);
    RenameTree(t0, cs, prefix, functions, ignoreCase);
    BlocksAreNotNames(t0, cs, r.scopes);
    forall i | 0 <= i < |cs| ensures var n := NameNode(t0, cs[i]).value; n in v1 && n in v && v[n] == v1[n] {
      var n := NameNode(t0, cs[i]).value;
      assert n in NamesOf(t0, cs);
      assert n !in ScopeBlocks(v0, r.scopes);
    }
  }

  /** The nodes the whole pass leaves alone (see `PassSpec`). */
  lemma PassKeeps(t0: Xnode, prefix: string, functions: set<string>, modules: set<string>, ignoreCase: bool,
                  b: NodeId, v: map<NodeId, Info>, next: NodeId)
    requires Distinct(t0) && (forall z | z in IdsOf(t0) :: z < b)
    requires OwnNames(t0, MatchAll(t0, FunctionCall))
    requires forall x | x in Rename(t0, MatchAll(t0, FunctionCall), prefix, functions, ignoreCase).scopes ::
      DirectChild(View(t0), x, Declarations).Some?
    requires var r := Rename(t0, MatchAll(t0, FunctionCall), prefix, functions, ignoreCase);
      Shadowed(View(r.tree), r.scopes, modules, b, v, next)
    ensures var cs, v0 := MatchAll(t0, FunctionCall), View(t0);
      var scopes := Rename(t0, cs, prefix, functions, ignoreCase).scopes;
      forall z | z in v0 && z !in NamesOf(t0, cs) && z !in ScopeBlocks(v0, scopes) :: z in v && v[z] == v0[z]
  {
    var cs := MatchAll(t0, FunctionCall);
    RenamedShadowed(t0, prefix, functions, modules, ignoreCase, b, v, next);
    RenameTree(t0, cs, prefix, functions, ignoreCase);
  }

  /**
   * The whole pass, stated against the tree it starts from, when no two
   * calls share a name node: the scopes are those of the matched calls; each
   * matched call's name gets the prefix and each other name stays; every
   * scope's declarations block gets one new `USE` per module, the same
   * sequence in every block; there is one new node per scope and module, and
   * no other node changes.
   */
  lemma PassSpec(t0: Xnode, prefix: string, functions: set<string>, modules: set<string>, ignoreCase: bool,
                 b: NodeId, v: map<NodeId, Info>, next: NodeId)
    requires Distinct(t0) && (forall z | z in IdsOf(t0) :: z < b)
    requires OwnNames(t0, MatchAll(t0, FunctionCall))
    requires forall x | x in Rename(t0, MatchAll(t0, FunctionCall), prefix, functions, ignoreCase).scopes ::
      DirectChild(View(t0), x, Declarations).Some?
    requires var r := Rename(t0, MatchAll(t0, FunctionCall), prefix, functions, ignoreCase);
      Shadowed(View(r.tree), r.scopes, modules, b, v, next)
    ensures var cs := MatchAll(t0, FunctionCall);
      forall x :: x in Rename(t0, cs, prefix, functions, ignoreCase).scopes <==>
        exists i :: 0 <= i < |cs| && Matched(t0, cs[i], functions, ignoreCase) && GetModule(t0, cs[i]) == Some(x)
    ensures var scopes := Rename(t0, MatchAll(t0, FunctionCall), prefix, functions, ignoreCase).scopes;
      && next == b + |scopes| * |modules|
      && (forall z :: z in v <==> z in View(t0) || b <= z < next)
      && (exists names :: Enumerates(names, modules) && ScopesImport(View(t0), scopes, v, names))
    ensures var cs, v0 := MatchAll(t0, FunctionCall), View(t0);
      forall i | 0 <= i < |cs| :: var n := NameNode(t0, cs[i]).value;
        n in v0 && n in v && v[n] == v0[n].(value := if Matched(t0, cs[i], functions, ignoreCase) then prefix + v0[n].value else v0[n].value)
    ensures var cs, v0 := MatchAll(t0, FunctionCall), View(t0);
      var scopes := Rename(t0, cs, prefix, functions, ignoreCase).scopes;
      forall z | z in v0 && z !in NamesOf(t0, cs) && z !in ScopeBlocks(v0, scopes) :: z in v && v[z] == v0[z]
  {
    RenameScopes(t0, MatchAll(t0, FunctionCall), prefix, functions, ignoreCase);
    PassImports(t0, prefix, functions, modules, ignoreCase, b, v, next);
    PassNames(t0, prefix, functions, modules, ignoreCase, b, v, next);
    PassKeeps(t0, prefix, functions, modules, ignoreCase, b, v, next);
  }

  /**
   * One call through the stream: when its callee name matches, rename it and
   * give the call's scope (`getModule`), if it has one.
   */
  method RenameCall(xcodeml: XcodeProgram, call: NodeId, prefix: string, functions: set<string>, ignoreCase: bool)
    returns (scope: Option<NodeId>)
    requires xcodeml.Valid() && NameNode(xcodeml.root, call).Some?
    modifies xcodeml
    ensures xcodeml.Valid()
    ensures xcodeml.typeTable == old(xcodeml.typeTable) && xcodeml.nextHash == old(xcodeml.nextHash)
    ensures xcodeml.nextId == old(xcodeml.nextId)
    ensures !Matched(old(xcodeml.root), call, functions, ignoreCase) ==> xcodeml.root == old(xcodeml.root) && scope == None
    ensures Matched(old(xcodeml.root), call, functions, ignoreCase) ==>
      var n := NameNode(old(xcodeml.root), call).value;
      && xcodeml.root == SetValue(old(xcodeml.root), n, prefix + TextOf(old(xcodeml.root), n))
      && scope == GetModule(xcodeml.root, call)
  {
    scope := None;
    var nameNode := NameNode(xcodeml.root, call).value;
    var text := TextOf(xcodeml.root, nameNode);
    if MatchKey(text, ignoreCase) in functions {
      NameNodeInTree(xcodeml.root, call);
      xcodeml.SetNodeValue(nameNode, prefix + text);
      scope := GetModule(xcodeml.root, call);
    }
  }

  /**
   * The stream of the pass up to `collect(toSet())`: rename the matched
   * calls in document order and collect their scopes.
   */
  method RenameCalls(xcodeml: XcodeProgram, prefix: string, functions: set<string>, ignoreCase: bool)
    returns (scopes: set<NodeId>)
    requires xcodeml.Valid()
    requires Named(xcodeml.root, MatchAll(xcodeml.root, FunctionCall))
    modifies xcodeml
    ensures xcodeml.Valid() && SameScopes(old(xcodeml.root), xcodeml.root)
    ensures var r := Rename(old(xcodeml.root), MatchAll(old(xcodeml.root), FunctionCall), prefix, functions, ignoreCase);
      xcodeml.root == r.tree && scopes == r.scopes
    ensures xcodeml.typeTable == old(xcodeml.typeTable) && xcodeml.nextHash == old(xcodeml.nextHash)
    ensures xcodeml.nextId == old(xcodeml.nextId)
  {
    ghost var t0 := xcodeml.root;
    var calls := MatchAll(xcodeml.root, FunctionCall);
    scopes := {};
    RenameStart(t0, calls, prefix, functions, ignoreCase);
    for i := 0 to |calls|
      invariant xcodeml.Valid() && xcodeml.nextId == old(xcodeml.nextId)
      invariant xcodeml.typeTable == old(xcodeml.typeTable) && xcodeml.nextHash == old(xcodeml.nextHash)
      invariant RenameSoFar(t0, calls, prefix, functions, ignoreCase, xcodeml.root, i, scopes)
    {
      scopes := RenameOne(xcodeml, t0, calls, prefix, functions, ignoreCase, i, scopes);
    }
    RenameEnd(t0, calls, prefix, functions, ignoreCase, xcodeml.root, scopes);
  }

  /** One round of the `forEach`: the `i`-th call, renamed if it matches, its scope collected. */
  method RenameOne(xcodeml: XcodeProgram, ghost t0: Xnode, calls: seq<NodeId>, prefix: string, functions: set<string>,
                   ignoreCase: bool, i: nat, scopes: set<NodeId>) returns (scopes': set<NodeId>)
    requires xcodeml.Valid() && i < |calls| && Named(t0, calls)
    requires RenameSoFar(t0, calls, prefix, functions, ignoreCase, xcodeml.root, i, scopes)
    modifies xcodeml
    ensures xcodeml.Valid() && xcodeml.nextId == old(xcodeml.nextId)
    ensures xcodeml.typeTable == old(xcodeml.typeTable) && xcodeml.nextHash == old(xcodeml.nextHash)
    ensures RenameSoFar(t0, calls, prefix, functions, ignoreCase, xcodeml.root, i + 1, scopes')
  {
    ghost var t := xcodeml.root;
    assert NameNode(t, calls[i]) == NameNode(t0, calls[i]);
    var scope := RenameCall(xcodeml, calls[i], prefix, functions, ignoreCase);
    scopes' := scopes;
    if scope.Some? {
      scopes' := scopes + {scope.value};
    }
    RenameNext(t0, calls, prefix, functions, ignoreCase, t, i, scopes, xcodeml.root, scopes');
  }

  /** One round of the `forEach`: `addUses(xs[j], names)`. */
  method ImportScope(xcodeml: XcodeProgram, ghost v1: map<NodeId, Info>, xs: seq<NodeId>, ghost ds: seq<NodeId>,
                     names: seq<string>, ghost b1: NodeId, j: nat)
    requires xcodeml.Valid() && j < |xs|
    requires names != [] ==> ImportsSoFar(v1, xs, ds, names, b1, View(xcodeml.root), j, xcodeml.nextId)
    modifies xcodeml
    ensures xcodeml.Valid() && xcodeml.root.id == old(xcodeml.root.id)
    ensures xcodeml.typeTable == old(xcodeml.typeTable) && xcodeml.nextHash == old(xcodeml.nextHash)
    ensures names == [] ==> xcodeml.root == old(xcodeml.root) && xcodeml.nextId == old(xcodeml.nextId)
    ensures names != [] ==> ImportsSoFar(v1, xs, ds, names, b1, View(xcodeml.root), j + 1, xcodeml.nextId)
  {
    ghost var v, b := View(xcodeml.root), xcodeml.nextId;
    if names != [] {
      ImportsAt(v1, xs, ds, names, b1, v, j, b);
    }
    AddUses(xs[j], names, xcodeml);
    if names != [] {
      InsertedUsesRoot(old(xcodeml.root), DirectChild(v, xs[j], Declarations).value, b, names);
      ImportsNext(v1, xs, ds, names, b1, v, j, b, View(xcodeml.root), xcodeml.nextId);
    }
  }

  /** The `forEach` of the pass: `addUses(scope, modules)` for each scope of the set, in the set's order. */
  method ImportScopes(xcodeml: XcodeProgram, scopes: set<NodeId>, modules: set<string>)
    requires xcodeml.Valid()
    requires modules != {} ==> forall x | x in scopes ::
      x in View(xcodeml.root) && View(xcodeml.root)[x].kind != Declarations && DirectChild(View(xcodeml.root), x, Declarations).Some?
    modifies xcodeml
    ensures xcodeml.Valid() && xcodeml.root.id == old(xcodeml.root.id)
    ensures xcodeml.typeTable == old(xcodeml.typeTable) && xcodeml.nextHash == old(xcodeml.nextHash)
    ensures modules == {} ==> xcodeml.root == old(xcodeml.root) && xcodeml.nextId == old(xcodeml.nextId)
    ensures Shadowed(old(View(xcodeml.root)), scopes, modules, old(xcodeml.nextId), View(xcodeml.root), xcodeml.nextId)
  {
    var order := Elements(scopes);
    var moduleNames := Elements(modules);
    ghost var v1, b1 := View(xcodeml.root), xcodeml.nextId;
    ghost var ds := BlocksOf(v1, order);
    if moduleNames != [] {
      ImportsStart(xcodeml.root, b1, scopes, order, moduleNames);
    }
    ImportEach(xcodeml, v1, order, ds, moduleNames, b1);
    if moduleNames != [] {
      ImportsEnd(v1, order, ds, moduleNames, b1, View(xcodeml.root), xcodeml.nextId);
    } else {
      ImportedNone(v1, ds, b1);
      TimesIsMul(|order|, 0);
    }
    ShadowedBy(v1, scopes, modules, b1, View(xcodeml.root), xcodeml.nextId, order, moduleNames);
  }

  /** The loop of the `forEach`: `addUses(xs[j], names)` for each `j` in turn. */
  method ImportEach(xcodeml: XcodeProgram, ghost v1: map<NodeId, Info>, xs: seq<NodeId>, ghost ds: seq<NodeId>,
                    names: seq<string>, ghost b1: NodeId)
    requires xcodeml.Valid()
    requires names != [] ==> ImportsSoFar(v1, xs, ds, names, b1, View(xcodeml.root), 0, xcodeml.nextId)
    modifies xcodeml
    ensures xcodeml.Valid() && xcodeml.root.id == old(xcodeml.root.id)
    ensures xcodeml.typeTable == old(xcodeml.typeTable) && xcodeml.nextHash == old(xcodeml.nextHash)
    ensures names == [] ==> xcodeml.root == old(xcodeml.root) && xcodeml.nextId == old(xcodeml.nextId)
    ensures names != [] ==> ImportsSoFar(v1, xs, ds, names, b1, View(xcodeml.root), |xs|, xcodeml.nextId)
  {
    for j := 0 to |xs|
      invariant xcodeml.Valid() && xcodeml.root.id == old(xcodeml.root.id)
      invariant xcodeml.typeTable == old(xcodeml.typeTable) && xcodeml.nextHash == old(xcodeml.nextHash)
      invariant names == [] ==> xcodeml.root == old(xcodeml.root) && xcodeml.nextId == old(xcodeml.nextId)
      invariant names != [] ==> ImportsSoFar(v1, xs, ds, names, b1, View(xcodeml.root), j, xcodeml.nextId)
    {
      ImportScope(xcodeml, v1, xs, ds, names, b1, j);
    }
  }

  /**
   * The pass. Every call must have a name node and, when there are modules
   * to import, every scope collected a declarations block.
   */
  method Shadow(xcodeml: XcodeProgram, prefix: string, functions: set<string>, modules: set<string>, ignoreCase: bool)
    requires xcodeml.Valid()
    requires Named(xcodeml.root, MatchAll(xcodeml.root, FunctionCall))
    requires modules != {} ==> forall x | x in Rename(xcodeml.root, MatchAll(xcodeml.root, FunctionCall), prefix, functions, ignoreCase).scopes ::
      DirectChild(View(xcodeml.root), x, Declarations).Some?
    modifies xcodeml
    ensures xcodeml.Valid() && xcodeml.root.id == old(xcodeml.root.id)
    ensures xcodeml.typeTable == old(xcodeml.typeTable) && xcodeml.nextHash == old(xcodeml.nextHash)
    ensures modules == {} ==> var r := Rename(old(xcodeml.root), MatchAll(old(xcodeml.root), FunctionCall), prefix, functions, ignoreCase);
      xcodeml.root == r.tree && xcodeml.nextId == old(xcodeml.nextId)
    ensures var r := Rename(old(xcodeml.root), MatchAll(old(xcodeml.root), FunctionCall), prefix, functions, ignoreCase);
      Shadowed(View(r.tree), r.scopes, modules, old(xcodeml.nextId), View(xcodeml.root), xcodeml.nextId)
  {
    ghost var t0 := xcodeml.root;
    var scopes := RenameCalls(xcodeml, prefix, functions, ignoreCase);
    RenameKeepsRoot(t0, MatchAll(t0, FunctionCall), prefix, functions, ignoreCase);
    if modules != {} {
      ScopesReady(t0, MatchAll(t0, FunctionCall), prefix, functions, ignoreCase, xcodeml.root);
    }
    ImportScopes(xcodeml, scopes, modules);
  }
}
