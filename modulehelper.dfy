/**
 * `ModuleHelper`: finding the scope (module, or else program, function or
 * subroutine) that encloses a node, and adding `USE` declarations to the
 * declarations block of a node.
 */
module ModuleHelper {
  import opened Wrappers
  import opened Xtree
  import opened XcodeML

  /** The nearest link of kind `k` in a chain of ancestors listed from the root down. */
  function NearestOfKind(chain: seq<Link>, k: Xcode): (r: Option<NodeId>)
    ensures r.None? <==> forall i | 0 <= i < |chain| :: chain[i].kind != k
    ensures r.Some? ==> IsNearest(chain, r.value, k)
  {
    if chain == [] then None
    else if chain[|chain| - 1].kind == k then
      assert IsNearest(chain, chain[|chain| - 1].id, k) by {
        assert chain[|chain| - 1] == Link(chain[|chain| - 1].id, k);
      }
      Some(chain[|chain| - 1].id)
    else
      var r := NearestOfKind(chain[..|chain| - 1], k);
      NearestPastOther(chain, k, r);
      r
  }

  /** A last link of another kind changes neither whether a link of kind `k` exists nor which is nearest. */
  lemma NearestPastOther(chain: seq<Link>, k: Xcode, r: Option<NodeId>)
    requires chain != [] && chain[|chain| - 1].kind != k
    requires var init := chain[..|chain| - 1];
      && (r.None? <==> forall i | 0 <= i < |init| :: init[i].kind != k)
      && (r.Some? ==> IsNearest(init, r.value, k))
    ensures r.None? <==> forall i | 0 <= i < |chain| :: chain[i].kind != k
    ensures r.Some? ==> IsNearest(chain, r.value, k)
  {
    var init := chain[..|chain| - 1];
    assert forall i | 0 <= i < |init| :: init[i] == chain[i];
    if r.Some? {
      var i :| 0 <= i < |init| && init[i] == Link(r.value, k) && forall j | i < j < |init| :: init[j].kind != k;
      assert chain[i] == Link(r.value, k) && forall j | i < j < |chain| :: chain[j].kind != k;
    }
  }

  /** `a` is the last, that is the nearest, link of kind `k` in `chain`. */
  ghost predicate IsNearest(chain: seq<Link>, a: NodeId, k: Xcode)
  {
    exists i :: 0 <= i < |chain| && chain[i] == Link(a, k) && forall j | i < j < |chain| :: chain[j].kind != k
  }

  /** Some link of `chain` has kind `k`. */
  ghost predicate HasKind(chain: seq<Link>, k: Xcode)
  {
    exists i :: 0 <= i < |chain| && chain[i].kind == k
  }

  /** `matchAncestor(k)` on node `x`: its nearest strict ancestor of kind `k`, or nothing when no ancestor has that kind. */
  function MatchAncestor(t: Xnode, x: NodeId, k: Xcode): (r: Option<NodeId>)
    ensures r.None? <==> !HasKind(Ancestors(t, x), k)
    ensures r.Some? ==> IsNearest(Ancestors(t, x), r.value, k)
  {
    NearestOfKind(Ancestors(t, x), k)
  }

  /**
   * `getModule(x)`: the nearest enclosing module (`findParentModule`), even
   * when a function definition is nearer; failing that the nearest enclosing
   * function definition (program, function or subroutine); failing that
   * nothing. The tree is a value, so the lookup changes nothing.
   */
  function GetModule(t: Xnode, x: NodeId): (r: Option<NodeId>)
    ensures var chain := Ancestors(t, x);
      && (HasKind(chain, FModuleDefinition) ==> r.Some? && IsNearest(chain, r.value, FModuleDefinition))
      && (!HasKind(chain, FModuleDefinition) && HasKind(chain, FFunctionDefinition) ==>
            r.Some? && IsNearest(chain, r.value, FFunctionDefinition))
      && (!HasKind(chain, FModuleDefinition) && !HasKind(chain, FFunctionDefinition) ==> r.None?)
  {
    match MatchAncestor(t, x, FModuleDefinition)
    case Some(m) => Some(m)
    case None => MatchAncestor(t, x, FFunctionDefinition)
  }

  /** The scope found is a strict ancestor of `x`, and a module or a function definition. */
  lemma GetModuleEncloses(t: Xnode, x: NodeId)
    requires Distinct(t)
    ensures GetModule(t, x).Some? ==>
      Within(t, x, GetModule(t, x).value) && GetModule(t, x).value in View(t) &&
      View(t)[GetModule(t, x).value].kind in {FModuleDefinition, FFunctionDefinition}
  {
    var chain := Ancestors(t, x);
    if x !in IdsOf(t) {
      AncestorsAbsent(t, x);
    } else if GetModule(t, x).Some? {
      AncestorsSpec(t, x);
      var m := GetModule(t, x).value;
      var k := if HasKind(chain, FModuleDefinition) then FModuleDefinition else FFunctionDefinition;
      assert IsNearest(chain, m, k);
      var i :| 0 <= i < |chain| && chain[i] == Link(m, k);
      assert chain[i] in chain;
    }
  }

  // ---------------------------------------------------------------------
  // addUse, addUses

  /** The `USE` declaration node of module `name`, as `addUse` builds it. */
  function UseNode(id: NodeId, name: string): Xnode
  {
    Xnode(id, FUseDecl, name, NoType, "", 0, [])
  }

  function UseInfo(name: string): Info
  {
    Info(FUseDecl, name, NoType, "", 0, [])
  }

  lemma UseNodeView(id: NodeId, name: string)
    ensures View(UseNode(id, name)) == map[id := UseInfo(name)]
    ensures Distinct(UseNode(id, name))
  {
    assert RootIds([]) == [];
  }

  /** The identifiers from `b + n - 1` down to `b`. */
  function Descending(b: NodeId, n: nat): seq<NodeId>
  {
    if n == 0 then [] else [b + n - 1] + Descending(b, n - 1)
  }

  /** The view after one `USE` per name, numbered from `b`, has been put first in block `d`, in turn. */
  ghost function PrependedUses(m: map<NodeId, Info>, d: NodeId, b: NodeId, names: seq<string>): (r: map<NodeId, Info>)
    requires d in m
    ensures d in r
  {
    if names == [] then m
    else Prepended(PrependedUses(m, d, b, names[..|names| - 1]), d, UseNode(b + |names| - 1, names[|names| - 1]))
  }

  /**
   * Adding the `USE`s of `names` to block `d` adds exactly one new node per
   * name, each a `USE` of that name (duplicates included), puts them in front
   * of the block (the last one added first) and changes no other node.
   */
  lemma {:induction false} PrependedUsesSpec(m: map<NodeId, Info>, d: NodeId, b: NodeId, names: seq<string>)
    requires d in m && forall x | x in m :: x < b
    ensures UsesAdded(m, PrependedUses(m, d, b, names), d, b, names)
  {
    if names != [] {
      var n := |names| - 1;
      PrependedUsesSpec(m, d, b, names[..n]);
      var r' := PrependedUses(m, d, b, names[..n]);
      PrependUseStep(m, r', d, b, names[..n], names[n], UseNode(b + n, names[n]), PrependedUses(m, d, b, names));
      assert names[..n] + [names[n]] == names;
    }
  }

  /**
   * `r` is `m` with one new `USE` per name, numbered from `b`, in front of
   * block `d` (the last one first), and no other node changed.
   */
  ghost predicate UsesAdded(m: map<NodeId, Info>, r: map<NodeId, Info>, d: NodeId, b: NodeId, names: seq<string>)
    requires d in m
  {
    && (forall x :: x in r <==> x in m || b <= x < b + |names|)
    && r[d] == m[d].(childIds := Descending(b, |names|) + m[d].childIds)
    && (forall i | 0 <= i < |names| :: r[b + i] == UseInfo(names[i]))
    && (forall x | x in m && x != d :: r[x] == m[x])
  }

  /** One more `USE` in front of the block keeps `UsesAdded`. */
  lemma PrependUseStep(m: map<NodeId, Info>, r': map<NodeId, Info>, d: NodeId, b: NodeId, names: seq<string>, last: string, u: Xnode, r: map<NodeId, Info>)
    requires d in m && forall x | x in m :: x < b
    requires UsesAdded(m, r', d, b, names)
    requires d in r' && u == UseNode(b + |names|, last) && r == Prepended(r', d, u)
    ensures UsesAdded(m, r, d, b, names + [last])
  {
    PrependedUse(r', d, b + |names|, last, u, r);
    UsesAddedNext(m, r', r, d, b, names, last);
  }

  /** `PrependUseStep` on the keys of the maps. */
  lemma UsesAddedNext(m: map<NodeId, Info>, r': map<NodeId, Info>, r: map<NodeId, Info>, d: NodeId, b: NodeId, names: seq<string>, last: string)
    requires d in m && (forall x | x in m :: x < b) && UsesAdded(m, r', d, b, names)
    requires forall x :: x in r <==> x in r' || x == b + |names|
    requires r[b + |names|] == UseInfo(last) && r[d] == r'[d].(childIds := [b + |names|] + r'[d].childIds)
    requires forall x | x in r' && x != d :: r[x] == r'[x]
    ensures UsesAdded(m, r, d, b, names + [last])
  {
    var n := |names|;
    assert Descending(b, n + 1) == [b + n] + Descending(b, n);
    assert [b + n] + (Descending(b, n) + m[d].childIds) == Descending(b, n + 1) + m[d].childIds;
    var all := names + [last];
    forall i | 0 <= i < |all| ensures r[b + i] == UseInfo(all[i]) {
      if i < n {
        assert b + i in r' && b + i != d;
      }
    }
  }

  /** One `USE` put in front of block `d` of map `v`, key by key. */
  lemma PrependedUse(v: map<NodeId, Info>, d: NodeId, b: NodeId, name: string, u: Xnode, v': map<NodeId, Info>)
    requires d in v && b !in v && u == UseNode(b, name) && v' == Prepended(v, d, u)
    ensures forall x :: x in v' <==> x in v || x == b
    ensures v'[b] == UseInfo(name) && v'[d] == v[d].(childIds := [b] + v[d].childIds)
    ensures forall x | x in v && x != d :: v'[x] == v[x]
  {
    UseNodeView(b, name);
    PrependedAt(v, d, u);
  }

  /** A node is not its own child. */
  lemma NotOwnChild(t: Xnode, p: NodeId)
    requires Distinct(t) && p in View(t)
    ensures p !in View(t)[p].childIds
    ensures forall c | c in View(t)[p].childIds :: c in View(t)
  {
    FindSpec(t, p);
    var s := Find(t, p).value;
    ChildIdsBelow(s, p);
    ChildIdsBelow(t, p);
  }

  /** `matchDirectDescendant` on a node depends only on that node's children and their kinds. */
  lemma DirectChildKept(m: map<NodeId, Info>, r: map<NodeId, Info>, x: NodeId, k: Xcode)
    requires x in m && x in r && r[x] == m[x]
    requires forall c | c in m[x].childIds :: c in m && c in r && r[c].kind == m[c].kind
    ensures DirectChild(r, x, k) == DirectChild(m, x, k)
  {
    FirstOfKindSameKinds(m, r, m[x].childIds, k);
  }

  /** A `USE` put first in block `d` leaves `matchDirectDescendant` unchanged on every node but `d`. */
  lemma DirectChildAfterPrepend(t: Xnode, d: NodeId, n: Xnode, x: NodeId, k: Xcode)
    requires Distinct(t) && d in View(t) && x in View(t) && x != d && IdsOf(n) !! IdsOf(t)
    ensures DirectChild(Prepended(View(t), d, n), x, k) == DirectChild(View(t), x, k)
  {
    var m, r := View(t), Prepended(View(t), d, n);
    NotOwnChild(t, x);
    forall c | c in m[x].childIds ensures c in m && c in r && r[c].kind == m[c].kind {
      assert c !in View(n);
    }
    DirectChildKept(m, r, x, k);
  }

  /** The declarations block `addUses` fills is a node of the tree other than the scope itself. */
  lemma AddUsesStart(t: Xnode, x: NodeId)
    requires Distinct(t) && DirectChild(View(t), x, Declarations).Some?
    ensures x in View(t) && DirectChild(View(t), x, Declarations).value in View(t)
    ensures DirectChild(View(t), x, Declarations).value != x
  {
    FirstOfKindSpec(View(t), View(t)[x].childIds, Declarations);
    NotOwnChild(t, x);
  }

  /** The `i`-th `USE` added by `addUses` leaves the scope's declarations block where it was. */
  lemma AddUsesStep(t: Xnode, d: NodeId, b: NodeId, name: string, x: NodeId, u: Xnode, r: map<NodeId, Info>)
    requires Distinct(t) && (forall y | y in IdsOf(t) :: y < b)
    requires d in View(t) && x in View(t) && x != d && DirectChild(View(t), x, Declarations) == Some(d)
    requires u == UseNode(b, name) && r == Prepended(View(t), d, u)
    ensures d in r && x in r && DirectChild(r, x, Declarations) == Some(d)
  {
    assert IdsOf(u) !! IdsOf(t) by {
      UseNodeView(b, name);
    }
    DirectChildAfterPrepend(t, d, u, x, Declarations);
    PrependedAt(View(t), d, u);
  }

  /** The views `addUses` goes through: one more name, one more `USE` in front. */
  lemma PrependedUsesNext(m: map<NodeId, Info>, d: NodeId, b: NodeId, names: seq<string>, i: nat, v: map<NodeId, Info>)
    requires d in m && i < |names| && v == PrependedUses(m, d, b, names[..i])
    ensures d in v && Prepended(v, d, UseNode(b + i, names[i])) == PrependedUses(m, d, b, names[..i + 1])
  {
    assert names[..i + 1][..i] == names[..i];
  }

  /** `addUse(currentModule, moduleName)`: a new `USE` of `moduleName` goes first in the node's direct declarations block. */
  method AddUse(currentModule: NodeId, moduleName: string, xcodeml: XcodeProgram)
    requires xcodeml.Valid() && DirectChild(View(xcodeml.root), currentModule, Declarations).Some?
    modifies xcodeml
    ensures xcodeml.Valid()
    ensures var d := DirectChild(old(View(xcodeml.root)), currentModule, Declarations).value;
      && d in old(View(xcodeml.root))
      && xcodeml.root == InsertFirstChild(old(xcodeml.root), d, UseNode(old(xcodeml.nextId), moduleName))
      && View(xcodeml.root) == Prepended(old(View(xcodeml.root)), d, UseNode(old(xcodeml.nextId), moduleName))
    ensures xcodeml.nextId == old(xcodeml.nextId) + 1
    ensures xcodeml.typeTable == old(xcodeml.typeTable) && xcodeml.nextHash == old(xcodeml.nextHash)
  {
    var use := xcodeml.CreateNode(FUseDecl);
    use := use.(nameAttr := moduleName);
    var declarations := DirectChild(View(xcodeml.root), currentModule, Declarations).value;
    FirstOfKindSpec(View(xcodeml.root), View(xcodeml.root)[currentModule].childIds, Declarations);
    UseNodeView(use.id, moduleName);
    xcodeml.InsertFirst(declarations, use);
  }

  /** What `addUses` has done after its first `i` names: those `USE`s lead block `d`, which is still the scope's declarations block. */
  ghost predicate AddUsesSoFar(v0: map<NodeId, Info>, d: NodeId, base: NodeId, names: seq<string>, x: NodeId, v: map<NodeId, Info>, i: nat)
  {
    && i <= |names| && d in v0 && d in v && x in v && x != d
    && DirectChild(v, x, Declarations) == Some(d)
    && v == PrependedUses(v0, d, base, names[..i])
  }

  lemma AddUsesNext(v0: map<NodeId, Info>, d: NodeId, base: NodeId, names: seq<string>, x: NodeId, t: Xnode, i: nat, v': map<NodeId, Info>)
    requires Distinct(t) && (forall y | y in IdsOf(t) :: y < base + i) && i < |names|
    requires AddUsesSoFar(v0, d, base, names, x, View(t), i)
    requires v' == Prepended(View(t), d, UseNode(base + i, names[i]))
    ensures AddUsesSoFar(v0, d, base, names, x, v', i + 1)
  {
    AddUsesStep(t, d, base + i, names[i], x, UseNode(base + i, names[i]), v');
    PrependedUsesNext(v0, d, base, names, i, View(t));
  }

  /** The tree `addUses` leaves: one `USE` per name put first in block `d`, numbered from `b` on, the last name's in front. */
  ghost function InsertedUses(t: Xnode, d: NodeId, b: NodeId, names: seq<string>): Xnode
  {
    if names == [] then t
    else InsertFirstChild(InsertedUses(t, d, b, names[..|names| - 1]), d, UseNode(b + |names| - 1, names[|names| - 1]))
  }

  /** Adding `USE`s keeps the root. */
  lemma {:induction false} InsertedUsesRoot(t: Xnode, d: NodeId, b: NodeId, names: seq<string>)
    ensures InsertedUses(t, d, b, names).id == t.id
    decreases |names|
  {
    if names != [] {
      InsertedUsesRoot(t, d, b, names[..|names| - 1]);
    }
  }

  lemma InsertedUsesNext(t0: Xnode, d: NodeId, b: NodeId, names: seq<string>, i: nat, t: Xnode)
    requires i < |names| && t == InsertedUses(t0, d, b, names[..i])
    ensures InsertFirstChild(t, d, UseNode(b + i, names[i])) == InsertedUses(t0, d, b, names[..i + 1])
  {
    assert names[..i + 1][..i] == names[..i];
  }

  /**
   * `addUses(currentModule, names)`: `addUse` once per element of the
   * collection, in its iteration order. With no names nothing is looked up,
   * so the node then needs no declarations block.
   */
  method AddUses(currentModule: NodeId, moduleNames: seq<string>, xcodeml: XcodeProgram)
    requires xcodeml.Valid()
    requires moduleNames != [] ==> DirectChild(View(xcodeml.root), currentModule, Declarations).Some?
    modifies xcodeml
    ensures xcodeml.Valid()
    ensures moduleNames == [] ==> xcodeml.root == old(xcodeml.root)
    ensures moduleNames != [] ==> var d := DirectChild(old(View(xcodeml.root)), currentModule, Declarations).value;
      && d in old(View(xcodeml.root))
      && xcodeml.root == InsertedUses(old(xcodeml.root), d, old(xcodeml.nextId), moduleNames)
      && View(xcodeml.root) == PrependedUses(old(View(xcodeml.root)), d, old(xcodeml.nextId), moduleNames)
    ensures xcodeml.nextId == old(xcodeml.nextId) + |moduleNames|
    ensures xcodeml.typeTable == old(xcodeml.typeTable) && xcodeml.nextHash == old(xcodeml.nextHash)
  {
    ghost var t0, v0, base := xcodeml.root, View(xcodeml.root), xcodeml.nextId;
    ghost var d := if moduleNames == [] then currentModule else DirectChild(v0, currentModule, Declarations).value;
    if moduleNames != [] {
      AddUsesStart(xcodeml.root, currentModule);
    }
    assert moduleNames[..0] == [];
    for i := 0 to |moduleNames|
      invariant xcodeml.Valid() && xcodeml.nextId == base + i
      invariant xcodeml.typeTable == old(xcodeml.typeTable) && xcodeml.nextHash == old(xcodeml.nextHash)
      invariant xcodeml.root == InsertedUses(t0, d, base, moduleNames[..i])
      invariant moduleNames != [] ==> AddUsesSoFar(v0, d, base, moduleNames, currentModule, View(xcodeml.root), i)
    {
      ghost var t := xcodeml.root;
      AddUse(currentModule, moduleNames[i], xcodeml);
      AddUsesNext(v0, d, base, moduleNames, currentModule, t, i, View(xcodeml.root));
      InsertedUsesNext(t0, d, base, moduleNames, i, t);
    }
    assert moduleNames[..|moduleNames|] == moduleNames;
  }
}
