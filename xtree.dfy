/**
 * The XcodeML program tree as the transformations see it, stated as values.
 *
 * A node carries a unique identifier, which stands for the identity of the
 * library's node object; `View` turns a tree into the map from identifiers to
 * node records (kind, attributes, text value, line number and the ordered
 * identifiers of its children) that the library's DOM amounts to. The
 * library's queries (`matchAll`, `matchAncestor`, `matchDescendant`,
 * `matchDirectDescendant`) and updates (`setValue`, `insert`, `append`,
 * `insertAfter`, `delete`, `cloneNode`) are functions on trees, and the lemmas
 * of this module state what each update does to the view.
 */
module Xtree {
  import opened Wrappers

  type NodeId = nat

  /** The node kinds (Xcode opcodes) the transformations look at; all others are `Other`. */
  datatype Xcode =
    | FunctionCall
    | Name
    | FPowerExpr
    | Declarations
    | FModuleDefinition
    | FFunctionDefinition
    | FUseDecl
    | Arguments
    | Other(tag: string)

  /** The `type` attribute of a node: absent, a basic type name, or a function type of the type table. */
  datatype TypeRef = NoType | BasicType(name: string) | FunctionTypeRef(hash: nat)

  datatype Xnode = Xnode(
    id: NodeId,
    kind: Xcode,
    nameAttr: string,      // the `name` attribute
    ty: TypeRef,           // the `type` attribute
    value: string,         // the text content
    line: int,             // the `lineno` attribute
    children: seq<Xnode>)

  /** A node as the DOM holds it: its own data and the identifiers of its children. */
  datatype Info = Info(kind: Xcode, nameAttr: string, ty: TypeRef, value: string, line: int, childIds: seq<NodeId>)

  /** One step of an ancestor chain. */
  datatype Link = Link(id: NodeId, kind: Xcode)

  function RootIds(ts: seq<Xnode>): seq<NodeId>
  {
    seq(|ts|, i requires 0 <= i < |ts| => ts[i].id)
  }

  function InfoOf(t: Xnode): Info
  {
    Info(t.kind, t.nameAttr, t.ty, t.value, t.line, RootIds(t.children))
  }

  // ---------------------------------------------------------------------
  // The view of a tree and the uniqueness of identifiers

  function View(t: Xnode): map<NodeId, Info>
  {
    ViewIn(t.children)[t.id := InfoOf(t)]
  }

  function ViewIn(ts: seq<Xnode>): map<NodeId, Info>
  {
    if ts == [] then map[] else View(ts[0]) + ViewIn(ts[1..])
  }

  function IdsOf(t: Xnode): set<NodeId> { View(t).Keys }

  function IdsIn(ts: seq<Xnode>): set<NodeId> { ViewIn(ts).Keys }

  /** Every identifier occurs once in the tree. */
  predicate Distinct(t: Xnode)
  {
    t.id !in IdsIn(t.children) && DistinctIn(t.children)
  }

  predicate DistinctIn(ts: seq<Xnode>)
  {
    ts == [] || (Distinct(ts[0]) && DistinctIn(ts[1..]) && IdsOf(ts[0]) !! IdsIn(ts[1..]))
  }

  /** `a` agrees with `b` wherever `a` is defined. */
  ghost predicate SubView(a: map<NodeId, Info>, b: map<NodeId, Info>)
  {
    forall k | k in a :: k in b && b[k] == a[k]
  }

  predicate NoDup(s: seq<NodeId>)
  {
    forall i, j | 0 <= i < j < |s| :: s[i] != s[j]
  }

  lemma {:induction false} ViewInConcat(a: seq<Xnode>, b: seq<Xnode>)
    ensures ViewIn(a + b) == ViewIn(a) + ViewIn(b)
    ensures DistinctIn(a + b) <==> DistinctIn(a) && DistinctIn(b) && IdsIn(a) !! IdsIn(b)
  {
    ViewInConcatMap(a, b);
    DistinctInConcat(a, b);
  }

  lemma {:induction false} ViewInConcatMap(a: seq<Xnode>, b: seq<Xnode>)
    ensures ViewIn(a + b) == ViewIn(a) + ViewIn(b)
  {
    if a == [] {
      assert a + b == b;
    } else {
      assert (a + b)[0] == a[0];
      assert (a + b)[1..] == a[1..] + b;
      ViewInConcatMap(a[1..], b);
      UnionAssoc(View(a[0]), ViewIn(a[1..]), ViewIn(b));
    }
  }

  lemma UnionAssoc(x: map<NodeId, Info>, y: map<NodeId, Info>, z: map<NodeId, Info>)
    ensures x + (y + z) == (x + y) + z
  {
  }

  lemma {:induction false} DistinctInConcat(a: seq<Xnode>, b: seq<Xnode>)
    ensures DistinctIn(a + b) <==> DistinctIn(a) && DistinctIn(b) && IdsIn(a) !! IdsIn(b)
  {
    if a == [] {
      assert a + b == b;
    } else {
      assert (a + b)[0] == a[0];
      assert (a + b)[1..] == a[1..] + b;
      ViewInConcatMap(a[1..], b);
      DistinctInConcat(a[1..], b);
    }
  }

  lemma ViewInSingle(t: Xnode)
    ensures ViewIn([t]) == View(t)
    ensures DistinctIn([t]) == Distinct(t)
  {
    assert [t][1..] == [];
  }

  /** Each child's own view is part of its parent's, and the roots of a forest are in its view. */
  lemma {:induction false} ViewInParts(ts: seq<Xnode>, i: nat)
    requires DistinctIn(ts) && i < |ts|
    ensures SubView(View(ts[i]), ViewIn(ts)) && Distinct(ts[i])
    ensures IdsOf(ts[i]) <= IdsIn(ts)
  {
    if i > 0 {
      ViewInParts(ts[1..], i - 1);
    }
  }

  /** The record of a node's own identifier in its view is the node itself. */
  lemma OwnInfo(t: Xnode)
    ensures t.id in View(t) && View(t)[t.id] == InfoOf(t)
  {
  }

  /**
   * A tree with distinct identifiers is determined by its root's identifier
   * and by any map its view agrees with: two such trees are the same tree.
   */
  lemma {:induction false} SameTree(t: Xnode, u: Xnode, v: map<NodeId, Info>)
    requires Distinct(t) && Distinct(u) && t.id == u.id
    requires SubView(View(t), v) && SubView(View(u), v)
    ensures t == u
  {
    OwnInfo(t);
    OwnInfo(u);
    assert InfoOf(t) == InfoOf(u);
    SameForest(t.children, u.children, v);
  }

  lemma {:induction false} SameForest(ts: seq<Xnode>, us: seq<Xnode>, v: map<NodeId, Info>)
    requires DistinctIn(ts) && DistinctIn(us) && RootIds(ts) == RootIds(us)
    requires SubView(ViewIn(ts), v) && SubView(ViewIn(us), v)
    ensures ts == us
  {
    assert |ts| == |RootIds(ts)| == |us|;
    if ts != [] {
      assert ts[0].id == RootIds(ts)[0] == RootIds(us)[0] == us[0].id;
      assert RootIds(ts[1..]) == RootIds(ts)[1..] == RootIds(us)[1..] == RootIds(us[1..]);
      SubViewOfPart(ts, v);
      SubViewOfPart(us, v);
      SameTree(ts[0], us[0], v);
      SameForest(ts[1..], us[1..], v);
      assert ts == [ts[0]] + ts[1..] && us == [us[0]] + us[1..];
    }
  }

  /** The views of a forest's first tree and of the rest agree with any map the forest's view agrees with. */
  lemma SubViewOfPart(ts: seq<Xnode>, v: map<NodeId, Info>)
    requires DistinctIn(ts) && ts != [] && SubView(ViewIn(ts), v)
    ensures SubView(View(ts[0]), v) && SubView(ViewIn(ts[1..]), v)
  {
    ViewInParts(ts, 0);
  }

  /** So trees with distinct identifiers, the same root and the same view are equal. */
  lemma ViewDetermines(t: Xnode, u: Xnode)
    requires Distinct(t) && Distinct(u) && t.id == u.id && View(t) == View(u)
    ensures t == u
  {
    SameTree(t, u, View(t));
  }

  // ---------------------------------------------------------------------
  // Looking a node up by identifier

  /** The subtree whose root has identifier `x`, if any. */
  function Find(t: Xnode, x: NodeId): Option<Xnode>
  {
    if t.id == x then Some(t) else FindIn(t.children, x)
  }

  function FindIn(ts: seq<Xnode>, x: NodeId): Option<Xnode>
  {
    if ts == [] then None
    else if x in IdsOf(ts[0]) then Find(ts[0], x)
    else FindIn(ts[1..], x)
  }

  /** `x` lies strictly inside the subtree rooted at `a`. */
  ghost predicate Within(t: Xnode, x: NodeId, a: NodeId)
  {
    a != x && Find(t, a).Some? && x in IdsOf(Find(t, a).value)
  }

  lemma {:induction false} FindSpec(t: Xnode, x: NodeId)
    requires Distinct(t)
    ensures Find(t, x).Some? <==> x in IdsOf(t)
    ensures Find(t, x).Some? ==>
      Find(t, x).value.id == x && Distinct(Find(t, x).value) && SubView(View(Find(t, x).value), View(t))
  {
    if t.id != x {
      FindInSpec(t.children, x);
    }
  }

  lemma {:induction false} FindInSpec(ts: seq<Xnode>, x: NodeId)
    requires DistinctIn(ts)
    ensures FindIn(ts, x).Some? <==> x in IdsIn(ts)
    ensures FindIn(ts, x).Some? ==>
      FindIn(ts, x).value.id == x && Distinct(FindIn(ts, x).value) && SubView(View(FindIn(ts, x).value), ViewIn(ts))
  {
    if ts != [] {
      if x in IdsOf(ts[0]) {
        FindSpec(ts[0], x);
        ViewInParts(ts, 0);
      } else {
        FindInSpec(ts[1..], x);
      }
    }
  }

  /** In a forest with distinct identifiers, looking up an identifier of the i-th tree looks in that tree. */
  lemma {:induction false} FindInIndex(ts: seq<Xnode>, i: nat, y: NodeId)
    requires DistinctIn(ts) && i < |ts| && y in IdsOf(ts[i])
    ensures FindIn(ts, y) == Find(ts[i], y)
  {
    if i > 0 {
      ViewInParts(ts[1..], i - 1);
      FindInIndex(ts[1..], i - 1, y);
    }
  }

  /** Looking up a node that lies inside a found subtree finds it there. */
  lemma {:induction false} FindWithin(t: Xnode, a: NodeId, y: NodeId)
    requires Distinct(t) && Find(t, a).Some? && y in IdsOf(Find(t, a).value)
    ensures Find(t, y) == Find(Find(t, a).value, y)
  {
    FindSpec(t, a);
    if t.id != a {
      var k := ChildContaining(t.children, a);
      FindInIndex(t.children, k, a);
      ViewInParts(t.children, k);
      FindSpec(t.children[k], a);
      assert y in IdsOf(t.children[k]);
      FindInIndex(t.children, k, y);
      FindWithin(t.children[k], a, y);
    }
  }

  /** The index of the tree of a forest that holds identifier `x`. */
  lemma {:induction false} ChildContaining(ts: seq<Xnode>, x: NodeId) returns (k: nat)
    requires x in IdsIn(ts)
    ensures k < |ts| && x in IdsOf(ts[k])
    ensures forall j | 0 <= j < k :: x !in IdsOf(ts[j])
  {
    if x in IdsOf(ts[0]) {
      k := 0;
    } else {
      var k' := ChildContaining(ts[1..], x);
      k := k' + 1;
    }
  }

  /** Each child of a found node is found as itself. */
  lemma FindChild(t: Xnode, a: NodeId, i: nat)
    requires Distinct(t) && Find(t, a).Some? && i < |Find(t, a).value.children|
    ensures Find(t, Find(t, a).value.children[i].id) == Some(Find(t, a).value.children[i])
  {
    var n := Find(t, a).value;
    FindSpec(t, a);
    ViewInParts(n.children, i);
    FindWithin(t, a, n.children[i].id);
    FindInIndex(n.children, i, n.children[i].id);
  }

  /** The children listed for a node of a tree lie strictly below the tree's root. */
  lemma {:induction false} ChildIdsBelow(t: Xnode, p: NodeId)
    requires Distinct(t) && p in View(t)
    ensures forall c | c in View(t)[p].childIds :: c in IdsIn(t.children)
  {
    if p == t.id {
      forall c | c in View(t)[p].childIds ensures c in IdsIn(t.children) {
        var i :| 0 <= i < |t.children| && t.children[i].id == c;
        ViewInParts(t.children, i);
      }
    } else {
      var k := ChildContaining(t.children, p);
      ViewInParts(t.children, k);
      ChildIdsBelow(t.children[k], p);
      forall c | c in View(t)[p].childIds ensures c in IdsIn(t.children) {
        assert c in IdsOf(t.children[k]);
      }
    }
  }

  /** A node inside child `k` is seen alike from the child, and its own children lie below the child's root. */
  lemma ChildOwns(t: Xnode, k: nat, p: NodeId)
    requires Distinct(t) && k < |t.children| && p in IdsOf(t.children[k])
    ensures Distinct(t.children[k]) && p != t.id && p in View(t)
    ensures View(t.children[k])[p] == View(t)[p]
    ensures forall c | c in View(t)[p].childIds :: c in IdsIn(t.children[k].children) && c in IdsOf(t.children[k])
  {
    ViewInParts(t.children, k);
    ChildIdsBelow(t.children[k], p);
  }

  /** A node has at most one parent. */
  lemma {:induction false} UniqueParent(t: Xnode, p1: NodeId, p2: NodeId, c: NodeId)
    requires Distinct(t) && p1 in View(t) && p2 in View(t)
    requires c in View(t)[p1].childIds && c in View(t)[p2].childIds
    ensures p1 == p2
  {
    if p1 != t.id && p2 != t.id {
      var k1 := ChildContaining(t.children, p1);
      var k2 := ChildContaining(t.children, p2);
      ChildOwns(t, k1, p1);
      ChildOwns(t, k2, p2);
      if k1 == k2 {
        UniqueParent(t.children[k1], p1, p2, c);
      } else {
        ChildDisjoint(t.children, k1, k2);
      }
    } else if p1 != p2 {
      var q := if p1 == t.id then p2 else p1;
      assert q != t.id && c in View(t)[q].childIds && c in View(t)[t.id].childIds;
      var i :| 0 <= i < |t.children| && t.children[i].id == c;
      var k := ChildContaining(t.children, q);
      ChildOwns(t, k, q);
      ViewInParts(t.children, i);
      if i == k {
        assert false;
      } else {
        assert c in IdsOf(t.children[i]);
        ChildDisjoint(t.children, i, k);
      }
    }
  }

  /** Distinct trees of a forest with distinct identifiers share no identifier. */
  lemma {:induction false} ChildDisjoint(ts: seq<Xnode>, i: nat, j: nat)
    requires DistinctIn(ts) && i < |ts| && j < |ts| && i != j
    ensures IdsOf(ts[i]) !! IdsOf(ts[j])
  {
    if i > 0 && j > 0 {
      ChildDisjoint(ts[1..], i - 1, j - 1);
    } else if i == 0 {
      ViewInParts(ts[1..], j - 1);
    } else {
      ViewInParts(ts[1..], i - 1);
    }
  }

  // ---------------------------------------------------------------------
  // Queries: matchAll, matchDescendant, matchDirectDescendant, matchAncestor

  /** `matchAll(k)`: the identifiers of the nodes of kind `k`, in pre-order. */
  function MatchAll(t: Xnode, k: Xcode): seq<NodeId>
  {
    (if t.kind == k then [t.id] else []) + MatchAllIn(t.children, k)
  }

  function MatchAllIn(ts: seq<Xnode>, k: Xcode): seq<NodeId>
  {
    if ts == [] then [] else MatchAll(ts[0], k) + MatchAllIn(ts[1..], k)
  }

  /** The identifiers of the nodes of kind `k` in a view. */
  ghost function OfKind(v: map<NodeId, Info>, k: Xcode): set<NodeId>
  {
    set x | x in v && v[x].kind == k
  }

  lemma NoDupConcat(a: seq<NodeId>, b: seq<NodeId>)
    requires NoDup(a) && NoDup(b) && (forall x | x in a :: x !in b)
    ensures NoDup(a + b)
  {
    forall i, j | 0 <= i < j < |a + b| ensures (a + b)[i] != (a + b)[j] {
      if i < |a| && j >= |a| {
        assert (a + b)[i] in a && (a + b)[j] in b;
      }
    }
  }

  /** matchAll lists every node of the kind, each once, and nothing else. */
  lemma {:induction false} MatchAllSpec(t: Xnode, k: Xcode)
    requires Distinct(t)
    ensures forall x :: x in MatchAll(t, k) <==> x in OfKind(View(t), k)
    ensures NoDup(MatchAll(t, k))
  {
    MatchAllInSpec(t.children, k);
    NoDupConcat(if t.kind == k then [t.id] else [], MatchAllIn(t.children, k));
  }

  lemma {:induction false} MatchAllInSpec(ts: seq<Xnode>, k: Xcode)
    requires DistinctIn(ts)
    ensures forall x :: x in MatchAllIn(ts, k) <==> x in OfKind(ViewIn(ts), k)
    ensures NoDup(MatchAllIn(ts, k))
  {
    if ts != [] {
      MatchAllSpec(ts[0], k);
      MatchAllInSpec(ts[1..], k);
      NoDupConcat(MatchAll(ts[0], k), MatchAllIn(ts[1..], k));
    }
  }

  /** `matchDescendant(k)`: the first proper descendant of kind `k`, in pre-order. */
  function FirstDescendant(n: Xnode, k: Xcode): Option<NodeId>
  {
    var ms := MatchAllIn(n.children, k);
    if ms == [] then None else Some(ms[0])
  }

  /** The first identifier of `ids` whose node has kind `k`. */
  function FirstOfKind(v: map<NodeId, Info>, ids: seq<NodeId>, k: Xcode): (r: Option<NodeId>)
    ensures r.Some? ==> r.value in ids && r.value in v && v[r.value].kind == k
  {
    if ids == [] then None
    else if ids[0] in v && v[ids[0]].kind == k then Some(ids[0])
    else FirstOfKind(v, ids[1..], k)
  }

  /** `matchDirectDescendant(k)`: the first child of node `x` that has kind `k`. */
  function DirectChild(v: map<NodeId, Info>, x: NodeId, k: Xcode): Option<NodeId>
  {
    if x in v then FirstOfKind(v, v[x].childIds, k) else None
  }

  lemma {:induction false} FirstOfKindSpec(v: map<NodeId, Info>, ids: seq<NodeId>, k: Xcode)
    ensures FirstOfKind(v, ids, k).None? <==> forall i | 0 <= i < |ids| :: !(ids[i] in v && v[ids[i]].kind == k)
    ensures FirstOfKind(v, ids, k).Some? ==>
      exists i :: 0 <= i < |ids| && ids[i] == FirstOfKind(v, ids, k).value && ids[i] in v && v[ids[i]].kind == k &&
        forall j | 0 <= j < i :: !(ids[j] in v && v[ids[j]].kind == k)
  {
    if ids != [] && !(ids[0] in v && v[ids[0]].kind == k) {
      FirstOfKindSpec(v, ids[1..], k);
      if FirstOfKind(v, ids, k).Some? {
        var i :| 0 <= i < |ids[1..]| && ids[1..][i] == FirstOfKind(v, ids, k).value && ids[1..][i] in v &&
          v[ids[1..][i]].kind == k && forall j | 0 <= j < i :: !(ids[1..][j] in v && v[ids[1..][j]].kind == k);
        assert ids[i + 1] == FirstOfKind(v, ids, k).value;
      }
    }
  }

  /** The search depends only on the kinds of the listed nodes. */
  lemma {:induction false} FirstOfKindSameKinds(v: map<NodeId, Info>, w: map<NodeId, Info>, ids: seq<NodeId>, k: Xcode)
    requires forall i | 0 <= i < |ids| :: (ids[i] in v <==> ids[i] in w) && (ids[i] in v ==> v[ids[i]].kind == w[ids[i]].kind)
    ensures FirstOfKind(v, ids, k) == FirstOfKind(w, ids, k)
  {
    if ids != [] {
      FirstOfKindSameKinds(v, w, ids[1..], k);
    }
  }

  /** The chain of ancestors of `x`, from the root down to its parent (empty for the root or an absent node). */
  function Ancestors(t: Xnode, x: NodeId): seq<Link>
    decreases t
  {
    if t.id == x then [] else AncestorsIn(Link(t.id, t.kind), t.children, x)
  }

  function AncestorsIn(up: Link, ts: seq<Xnode>, x: NodeId): seq<Link>
    decreases ts
  {
    if ts == [] then []
    else if x in IdsOf(ts[0]) then [up] + Ancestors(ts[0], x)
    else AncestorsIn(up, ts[1..], x)
  }

  /** A node that is not in the tree has no ancestors. */
  lemma {:induction false} AncestorsAbsent(t: Xnode, x: NodeId)
    requires x !in IdsOf(t)
    ensures Ancestors(t, x) == []
    decreases t, 1
  {
    AncestorsInAbsent(Link(t.id, t.kind), t.children, x);
  }

  lemma {:induction false} AncestorsInAbsent(up: Link, ts: seq<Xnode>, x: NodeId)
    requires x !in IdsIn(ts)
    ensures AncestorsIn(up, ts, x) == []
    decreases ts
  {
    if ts != [] {
      AncestorsInAbsent(up, ts[1..], x);
    }
  }

  /** The ancestor chain lists exactly the nodes whose subtrees hold `x`, with their kinds. */
  lemma {:induction false} AncestorsSpec(t: Xnode, x: NodeId)
    requires Distinct(t) && x in IdsOf(t)
    ensures forall l | l in Ancestors(t, x) :: l.id in View(t) && View(t)[l.id].kind == l.kind
    ensures forall a :: (exists l :: l in Ancestors(t, x) && l.id == a) <==> Within(t, x, a)
  {
    if t.id == x {
      forall a | Within(t, x, a) ensures false {
        FindSpec(t, a);
        var k := ChildContaining(t.children, a);
        ViewInParts(t.children, k);
        FindInIndex(t.children, k, a);
        FindSpec(t.children[k], a);
      }
    } else {
      var k := ChildContaining(t.children, x);
      var c := t.children[k];
      ViewInParts(t.children, k);
      AncestorsInIndex(Link(t.id, t.kind), t.children, k, x);
      AncestorsSpec(c, x);
      assert Ancestors(t, x) == [Link(t.id, t.kind)] + Ancestors(c, x);
      forall a ensures (exists l :: l in Ancestors(t, x) && l.id == a) <==> Within(t, x, a) {
        if a == t.id {
          assert Ancestors(t, x)[0].id == a;
        } else {
          assert (exists l :: l in Ancestors(t, x) && l.id == a) <==> (exists l :: l in Ancestors(c, x) && l.id == a);
          if a in IdsOf(t) {
            var j := ChildContaining(t.children, a);
            FindInIndex(t.children, j, a);
            assert Find(t, a) == Find(t.children[j], a);
            if j != k {
              ChildDisjoint(t.children, j, k);
              ViewInParts(t.children, j);
              FindSpec(t.children[j], a);
              FindSpec(c, a);
              assert !Within(c, x, a);
              assert !Within(t, x, a);
            } else {
              assert Within(c, x, a) <==> Within(t, x, a);
            }
          } else {
            FindSpec(t, a);
            FindSpec(c, a);
            assert !Within(c, x, a);
          }
        }
      }
    }
  }

  lemma {:induction false} AncestorsInIndex(up: Link, ts: seq<Xnode>, i: nat, x: NodeId)
    requires DistinctIn(ts) && i < |ts| && x in IdsOf(ts[i])
    ensures AncestorsIn(up, ts, x) == [up] + Ancestors(ts[i], x)
  {
    if i > 0 {
      ViewInParts(ts[1..], i - 1);
      AncestorsInIndex(up, ts[1..], i - 1, x);
    }
  }

  // ---------------------------------------------------------------------
  // Facts about views as maps

  lemma UnionDisjointCommutes(a: map<NodeId, Info>, b: map<NodeId, Info>)
    requires a.Keys !! b.Keys
    ensures a + b == b + a
  {
    assert forall k | k in a + b :: (a + b)[k] == (b + a)[k];
  }

  lemma RootIdsConcat(a: seq<Xnode>, b: seq<Xnode>)
    ensures RootIds(a + b) == RootIds(a) + RootIds(b)
  {
  }

  lemma RootIdsCons(ts: seq<Xnode>)
    requires ts != []
    ensures RootIds(ts) == [ts[0].id] + RootIds(ts[1..])
  {
  }

  // ---------------------------------------------------------------------
  // setValue: the text of one node changes, nothing else

  function SetValue(t: Xnode, x: NodeId, v: string): Xnode
  {
    Xnode(t.id, t.kind, t.nameAttr, t.ty, if t.id == x then v else t.value, t.line, SetValueIn(t.children, x, v))
  }

  function SetValueIn(ts: seq<Xnode>, x: NodeId, v: string): seq<Xnode>
  {
    if ts == [] then [] else [SetValue(ts[0], x, v)] + SetValueIn(ts[1..], x, v)
  }

  /** A view in which the node `x` has the text `v`. */
  ghost function WithValue(m: map<NodeId, Info>, x: NodeId, v: string): map<NodeId, Info>
  {
    if x in m then m[x := m[x].(value := v)] else m
  }

  lemma {:induction false} SetValueView(t: Xnode, x: NodeId, v: string)
    ensures View(SetValue(t, x, v)) == WithValue(View(t), x, v)
    ensures IdsOf(SetValue(t, x, v)) == IdsOf(t)
    ensures Distinct(SetValue(t, x, v)) == Distinct(t)
  {
    SetValueInView(t.children, x, v);
    WithValueUpdate(ViewIn(t.children), t.id, InfoOf(t), x, v);
  }

  lemma {:induction false} SetValueInView(ts: seq<Xnode>, x: NodeId, v: string)
    ensures ViewIn(SetValueIn(ts, x, v)) == WithValue(ViewIn(ts), x, v)
    ensures IdsIn(SetValueIn(ts, x, v)) == IdsIn(ts)
    ensures RootIds(SetValueIn(ts, x, v)) == RootIds(ts)
    ensures DistinctIn(SetValueIn(ts, x, v)) == DistinctIn(ts)
  {
    if ts != [] {
      var ts' := SetValueIn(ts, x, v);
      SetValueView(ts[0], x, v);
      SetValueInView(ts[1..], x, v);
      assert ts'[1..] == SetValueIn(ts[1..], x, v);
      WithValueUnion(View(ts[0]), ViewIn(ts[1..]), x, v);
      RootIdsCons(ts);
      RootIdsCons(ts');
    }
  }

  lemma WithValueUnion(a: map<NodeId, Info>, b: map<NodeId, Info>, x: NodeId, v: string)
    ensures WithValue(a, x, v) + WithValue(b, x, v) == WithValue(a + b, x, v)
  {
    var l, r := WithValue(a, x, v) + WithValue(b, x, v), WithValue(a + b, x, v);
    assert l.Keys == r.Keys;
    assert forall k | k in l :: l[k] == r[k];
  }

  lemma WithValueUpdate(a: map<NodeId, Info>, y: NodeId, i: Info, x: NodeId, v: string)
    ensures WithValue(a[y := i], x, v) == WithValue(a, x, v)[y := if y == x then i.(value := v) else i]
    ensures WithValue(a, x, v).Keys == a.Keys
  {
    var l, r := WithValue(a[y := i], x, v), WithValue(a, x, v)[y := if y == x then i.(value := v) else i];
    assert l.Keys == r.Keys;
    assert forall k | k in l :: l[k] == r[k];
  }

  /** Renaming moves no node: ancestor chains, kind lists and lookups are as before. */
  lemma {:induction false} SetValueKeepsShape(t: Xnode, x: NodeId, v: string, y: NodeId, k: Xcode)
    decreases t
    ensures Ancestors(SetValue(t, x, v), y) == Ancestors(t, y)
    ensures MatchAll(SetValue(t, x, v), k) == MatchAll(t, k)
    ensures Find(SetValue(t, x, v), y) == if Find(t, y).Some? then Some(SetValue(Find(t, y).value, x, v)) else None
  {
    SetValueInKeepsShape(Link(t.id, t.kind), t.children, x, v, y, k);
  }

  lemma {:induction false} SetValueInKeepsShape(up: Link, ts: seq<Xnode>, x: NodeId, v: string, y: NodeId, k: Xcode)
    decreases ts
    ensures AncestorsIn(up, SetValueIn(ts, x, v), y) == AncestorsIn(up, ts, y)
    ensures MatchAllIn(SetValueIn(ts, x, v), k) == MatchAllIn(ts, k)
    ensures FindIn(SetValueIn(ts, x, v), y) == if FindIn(ts, y).Some? then Some(SetValue(FindIn(ts, y).value, x, v)) else None
  {
    if ts != [] {
      SetValueView(ts[0], x, v);
      SetValueKeepsShape(ts[0], x, v, y, k);
      SetValueInKeepsShape(up, ts[1..], x, v, y, k);
      assert SetValueIn(ts, x, v)[1..] == SetValueIn(ts[1..], x, v);
    }
  }

  // ---------------------------------------------------------------------
  // insert(n): `n` becomes the first child of node `p`

  function InsertFirstChild(t: Xnode, p: NodeId, n: Xnode): Xnode
  {
    var cs := InsertFirstIn(t.children, p, n);
    Xnode(t.id, t.kind, t.nameAttr, t.ty, t.value, t.line, if t.id == p then [n] + cs else cs)
  }

  function InsertFirstIn(ts: seq<Xnode>, p: NodeId, n: Xnode): (r: seq<Xnode>)
    ensures |r| == |ts|
  {
    if ts == [] then [] else [InsertFirstChild(ts[0], p, n)] + InsertFirstIn(ts[1..], p, n)
  }

  /** The view after `n` has become the first child of `p`. */
  ghost function Prepended(m: map<NodeId, Info>, p: NodeId, n: Xnode): map<NodeId, Info>
    requires p in m
  {
    (m + View(n))[p := m[p].(childIds := [n.id] + m[p].childIds)]
  }

  /** What `Prepended` holds, key by key. */
  lemma PrependedAt(m: map<NodeId, Info>, p: NodeId, n: Xnode)
    requires p in m
    ensures var r := Prepended(m, p, n);
      && (forall x :: x in r <==> x in m || x in View(n))
      && r[p] == m[p].(childIds := [n.id] + m[p].childIds)
      && (forall x | x in View(n) && x != p :: r[x] == View(n)[x])
      && (forall x | x in m && x !in View(n) && x != p :: r[x] == m[x])
  {
  }

  lemma PrependedUnionLeft(a: map<NodeId, Info>, b: map<NodeId, Info>, p: NodeId, n: Xnode)
    requires p in a && p !in b && IdsOf(n) !! b.Keys
    ensures Prepended(a, p, n) + b == Prepended(a + b, p, n)
  {
    var l, r := Prepended(a, p, n) + b, Prepended(a + b, p, n);
    assert l.Keys == r.Keys;
    assert forall k | k in l :: l[k] == r[k];
  }

  lemma PrependedUnionRight(a: map<NodeId, Info>, b: map<NodeId, Info>, p: NodeId, n: Xnode)
    requires p in b && p !in a
    ensures a + Prepended(b, p, n) == Prepended(a + b, p, n)
  {
    var l, r := a + Prepended(b, p, n), Prepended(a + b, p, n);
    assert l.Keys == r.Keys;
    assert forall k | k in l :: l[k] == r[k];
  }

  lemma PrependedAtRoot(cs: map<NodeId, Info>, p: NodeId, i: Info, n: Xnode)
    requires p !in cs && IdsOf(n) !! cs.Keys && p !in IdsOf(n)
    ensures (View(n) + cs)[p := i.(childIds := [n.id] + i.childIds)] == Prepended(cs[p := i], p, n)
  {
    var l, r := (View(n) + cs)[p := i.(childIds := [n.id] + i.childIds)], Prepended(cs[p := i], p, n);
    assert l.Keys == r.Keys;
    assert forall k | k in l :: l[k] == r[k];
  }

  lemma {:induction false} InsertFirstAbsent(t: Xnode, p: NodeId, n: Xnode)
    requires p !in IdsOf(t)
    ensures InsertFirstChild(t, p, n) == t
  {
    InsertFirstInAbsent(t.children, p, n);
  }

  lemma {:induction false} InsertFirstInAbsent(ts: seq<Xnode>, p: NodeId, n: Xnode)
    requires p !in IdsIn(ts)
    ensures InsertFirstIn(ts, p, n) == ts
  {
    if ts != [] {
      InsertFirstAbsent(ts[0], p, n);
      InsertFirstInAbsent(ts[1..], p, n);
    }
  }

  lemma {:induction false} InsertFirstView(t: Xnode, p: NodeId, n: Xnode)
    requires Distinct(t) && Distinct(n) && p in IdsOf(t) && IdsOf(n) !! IdsOf(t)
    ensures View(InsertFirstChild(t, p, n)) == Prepended(View(t), p, n)
    ensures Distinct(InsertFirstChild(t, p, n))
  {
    if t.id == p {
      InsertFirstViewRoot(t, n);
    } else {
      InsertFirstInView(t.children, p, n);
      var t' := InsertFirstChild(t, p, n);
      assert InfoOf(t') == InfoOf(t);
      PrependedBelowRoot(ViewIn(t.children), t.id, InfoOf(t), p, n);
    }
  }

  lemma PrependedBelowRoot(cs: map<NodeId, Info>, x: NodeId, i: Info, p: NodeId, n: Xnode)
    requires p in cs && x != p && x !in IdsOf(n)
    ensures Prepended(cs, p, n)[x := i] == Prepended(cs[x := i], p, n)
  {
    var l, r := Prepended(cs, p, n)[x := i], Prepended(cs[x := i], p, n);
    assert l.Keys == r.Keys;
    assert forall k | k in l :: l[k] == r[k];
  }

  /** `InsertFirstView` when the node is the root. */
  lemma InsertFirstViewRoot(t: Xnode, n: Xnode)
    requires Distinct(t) && Distinct(n) && IdsOf(n) !! IdsOf(t)
    ensures View(InsertFirstChild(t, t.id, n)) == Prepended(View(t), t.id, n)
    ensures Distinct(InsertFirstChild(t, t.id, n))
  {
    var p := t.id;
    var t' := InsertFirstChild(t, p, n);
    InsertFirstInAbsent(t.children, p, n);
    ViewInConcat([n], t.children);
    ViewInSingle(n);
    assert t'.children == [n] + t.children;
    RootIdsConcat([n], t.children);
    assert RootIds([n]) == [n.id];
    assert InfoOf(t') == InfoOf(t).(childIds := [n.id] + InfoOf(t).childIds);
    assert IdsIn(t.children) <= IdsOf(t);
    PrependedAtRoot(ViewIn(t.children), p, InfoOf(t), n);
  }

  lemma {:induction false} InsertFirstInView(ts: seq<Xnode>, p: NodeId, n: Xnode)
    requires DistinctIn(ts) && Distinct(n) && p in IdsIn(ts) && IdsOf(n) !! IdsIn(ts)
    ensures ViewIn(InsertFirstIn(ts, p, n)) == Prepended(ViewIn(ts), p, n)
    ensures DistinctIn(InsertFirstIn(ts, p, n))
    ensures RootIds(InsertFirstIn(ts, p, n)) == RootIds(ts)
  {
    var ts' := InsertFirstIn(ts, p, n);
    assert ts'[1..] == InsertFirstIn(ts[1..], p, n);
    if p in IdsOf(ts[0]) {
      InsertFirstView(ts[0], p, n);
      InsertFirstInAbsent(ts[1..], p, n);
      PrependedUnionLeft(View(ts[0]), ViewIn(ts[1..]), p, n);
    } else {
      InsertFirstAbsent(ts[0], p, n);
      InsertFirstInView(ts[1..], p, n);
      PrependedUnionRight(View(ts[0]), ViewIn(ts[1..]), p, n);
    }
    RootIdsCons(ts);
    RootIdsCons(ts');
  }

  /** Inserting a node adds its identifiers to a subtree that holds `p` and changes no other identifier. */
  lemma {:induction false} InsertFirstIds(t: Xnode, p: NodeId, n: Xnode)
    ensures IdsOf(InsertFirstChild(t, p, n)) == IdsOf(t) + (if p in IdsOf(t) then IdsOf(n) else {})
  {
    InsertFirstInIds(t.children, p, n);
    if t.id == p {
      ViewInConcat([n], InsertFirstIn(t.children, p, n));
      ViewInSingle(n);
    }
  }

  lemma {:induction false} InsertFirstInIds(ts: seq<Xnode>, p: NodeId, n: Xnode)
    ensures IdsIn(InsertFirstIn(ts, p, n)) == IdsIn(ts) + (if p in IdsIn(ts) then IdsOf(n) else {})
  {
    if ts != [] {
      InsertFirstIds(ts[0], p, n);
      InsertFirstInIds(ts[1..], p, n);
      assert InsertFirstIn(ts, p, n)[1..] == InsertFirstIn(ts[1..], p, n);
    }
  }

  /** Inserting a new node moves no existing one: ancestor chains are as before. */
  lemma {:induction false} InsertFirstAncestors(t: Xnode, p: NodeId, n: Xnode, y: NodeId)
    requires y !in IdsOf(n)
    ensures Ancestors(InsertFirstChild(t, p, n), y) == Ancestors(t, y)
  {
    if t.id != y {
      InsertFirstInAncestors(Link(t.id, t.kind), t.children, p, n, y);
      if t.id == p {
        ViewInSingle(n);
        assert ([n] + InsertFirstIn(t.children, p, n))[1..] == InsertFirstIn(t.children, p, n);
      }
    }
  }

  lemma {:induction false} InsertFirstInAncestors(up: Link, ts: seq<Xnode>, p: NodeId, n: Xnode, y: NodeId)
    requires y !in IdsOf(n)
    ensures AncestorsIn(up, InsertFirstIn(ts, p, n), y) == AncestorsIn(up, ts, y)
    decreases ts
  {
    if ts != [] {
      InsertFirstIds(ts[0], p, n);
      InsertFirstAncestors(ts[0], p, n, y);
      InsertFirstInAncestors(up, ts[1..], p, n, y);
      assert InsertFirstIn(ts, p, n)[1..] == InsertFirstIn(ts[1..], p, n);
    }
  }

  /** Inserting a node with no node of kind `k` adds none to matchAll(k). */
  lemma {:induction false} InsertFirstMatchAll(t: Xnode, p: NodeId, n: Xnode, k: Xcode)
    requires MatchAll(n, k) == []
    ensures MatchAll(InsertFirstChild(t, p, n), k) == MatchAll(t, k)
  {
    InsertFirstInMatchAll(t.children, p, n, k);
    if t.id == p {
      assert ([n] + InsertFirstIn(t.children, p, n))[1..] == InsertFirstIn(t.children, p, n);
    }
  }

  lemma {:induction false} InsertFirstInMatchAll(ts: seq<Xnode>, p: NodeId, n: Xnode, k: Xcode)
    requires MatchAll(n, k) == []
    ensures MatchAllIn(InsertFirstIn(ts, p, n), k) == MatchAllIn(ts, k)
  {
    if ts != [] {
      InsertFirstMatchAll(ts[0], p, n, k);
      InsertFirstInMatchAll(ts[1..], p, n, k);
      assert InsertFirstIn(ts, p, n)[1..] == InsertFirstIn(ts[1..], p, n);
    }
  }

  /** A lookup of an existing node finds its subtree with `n` inserted into it. */
  lemma {:induction false} InsertFirstFind(t: Xnode, p: NodeId, n: Xnode, y: NodeId)
    requires y in IdsOf(t) && y !in IdsOf(n)
    ensures Find(t, y).Some? && Find(InsertFirstChild(t, p, n), y) == Some(InsertFirstChild(Find(t, y).value, p, n))
  {
    if t.id != y {
      InsertFirstInFind(t.children, p, n, y);
      if t.id == p {
        ViewInSingle(n);
        assert ([n] + InsertFirstIn(t.children, p, n))[1..] == InsertFirstIn(t.children, p, n);
      }
    }
  }

  lemma {:induction false} InsertFirstInFind(ts: seq<Xnode>, p: NodeId, n: Xnode, y: NodeId)
    requires y in IdsIn(ts) && y !in IdsOf(n)
    ensures FindIn(ts, y).Some? && FindIn(InsertFirstIn(ts, p, n), y) == Some(InsertFirstChild(FindIn(ts, y).value, p, n))
  {
    InsertFirstIds(ts[0], p, n);
    assert InsertFirstIn(ts, p, n)[1..] == InsertFirstIn(ts[1..], p, n);
    if y in IdsOf(ts[0]) {
      InsertFirstFind(ts[0], p, n, y);
    } else {
      InsertFirstInFind(ts[1..], p, n, y);
    }
  }
}
