/**
 * The structural updates of the XcodeML library that the lowering of `**`
 * uses: `insertAfter`, `delete`, deep copies made by `cloneNode`, and
 * `append` into a node that is not yet part of the program tree.
 *
 * `insertAfter(n)` followed by `delete()` on the same node amounts to putting
 * `n` in that node's place (`ReplaceThenDelete`); the lemmas of this module
 * state what that replacement does to identifiers, lookups and `matchAll`.
 */
module Xedit {
  import opened Wrappers
  import opened Xtree

  /** What becomes of the edited node among its siblings. */
  datatype Edit =
    | InsertAfter(n: Xnode)   // `insertAfter(n)`: the node stays and `n` follows it
    | Delete                  // `delete()`: the node and its subtree go
    | ReplaceBy(n: Xnode)     // both in turn: `n` takes the node's place

  function Edited(e: Edit, c: Xnode): seq<Xnode>
  {
    match e
    case InsertAfter(n) => [c, n]
    case Delete => []
    case ReplaceBy(n) => [n]
  }

  /** The tree with the node `p` (never the root) replaced among its siblings by `Edited(e, node p)`. */
  function Splice(t: Xnode, p: NodeId, e: Edit): Xnode
    decreases t
  {
    t.(children := SpliceIn(t.children, p, e))
  }

  function SpliceIn(ts: seq<Xnode>, p: NodeId, e: Edit): seq<Xnode>
    decreases ts
  {
    if ts == [] then []
    else if ts[0].id == p then Edited(e, ts[0]) + SpliceIn(ts[1..], p, e)
    else [Splice(ts[0], p, e)] + SpliceIn(ts[1..], p, e)
  }

  /** The list `xs` without the identifier `p`. */
  function Without(xs: seq<NodeId>, p: NodeId): (r: seq<NodeId>)
    ensures forall x :: x in r <==> x in xs && x != p
    ensures |r| <= |xs|
  {
    if xs == [] then []
    else if xs[0] == p then Without(xs[1..], p)
    else [xs[0]] + Without(xs[1..], p)
  }

  lemma {:induction false} WithoutConcat(a: seq<NodeId>, b: seq<NodeId>, p: NodeId)
    ensures Without(a + b, p) == Without(a, p) + Without(b, p)
  {
    if a != [] {
      assert (a + b)[1..] == a[1..] + b;
      WithoutConcat(a[1..], b, p);
    } else {
      assert a + b == b;
    }
  }

  lemma {:induction false} WithoutAbsent(a: seq<NodeId>, p: NodeId)
    requires p !in a
    ensures Without(a, p) == a
  {
    if a != [] {
      WithoutAbsent(a[1..], p);
    }
  }

  lemma SpliceInConcat(a: seq<Xnode>, b: seq<Xnode>, p: NodeId, e: Edit)
    ensures SpliceIn(a + b, p, e) == SpliceIn(a, p, e) + SpliceIn(b, p, e)
  {
    if a == [] {
      assert a + b == b;
    } else {
      assert (a + b)[1..] == a[1..] + b;
      SpliceInConcat(a[1..], b, p, e);
    }
  }

  lemma IdsInCons(ts: seq<Xnode>)
    requires ts != []
    ensures IdsIn(ts) == IdsOf(ts[0]) + IdsIn(ts[1..])
    ensures DistinctIn(ts) <==> Distinct(ts[0]) && DistinctIn(ts[1..]) && IdsOf(ts[0]) !! IdsIn(ts[1..])
  {
  }

  lemma OwnId(t: Xnode)
    ensures t.id in IdsOf(t) && IdsIn(t.children) <= IdsOf(t)
  {
  }

  /** Editing a node that is not there changes nothing. */
  lemma {:induction false} SpliceAbsent(t: Xnode, p: NodeId, e: Edit)
    requires p !in IdsIn(t.children)
    ensures Splice(t, p, e) == t
    decreases t
  {
    SpliceInAbsent(t.children, p, e);
  }

  lemma {:induction false} SpliceInAbsent(ts: seq<Xnode>, p: NodeId, e: Edit)
    requires p !in IdsIn(ts)
    ensures SpliceIn(ts, p, e) == ts
    decreases ts
  {
    if ts != [] {
      OwnId(ts[0]);
      SpliceAbsent(ts[0], p, e);
      SpliceInAbsent(ts[1..], p, e);
    }
  }

  /** `insertAfter(n)` then `delete()` on the same node puts `n` in its place. */
  lemma {:induction false} ReplaceThenDelete(t: Xnode, p: NodeId, n: Xnode)
    requires p !in IdsOf(n)
    ensures Splice(Splice(t, p, InsertAfter(n)), p, Delete) == Splice(t, p, ReplaceBy(n))
    decreases t
  {
    ReplaceThenDeleteIn(t.children, p, n);
  }

  lemma {:induction false} ReplaceThenDeleteIn(ts: seq<Xnode>, p: NodeId, n: Xnode)
    requires p !in IdsOf(n)
    ensures SpliceIn(SpliceIn(ts, p, InsertAfter(n)), p, Delete) == SpliceIn(ts, p, ReplaceBy(n))
    decreases ts
  {
    if ts != [] {
      var rest := SpliceIn(ts[1..], p, InsertAfter(n));
      ReplaceThenDeleteIn(ts[1..], p, n);
      if ts[0].id == p {
        OwnId(n);
        SpliceAbsent(n, p, Delete);
        SpliceInConcat([ts[0], n], rest, p, Delete);
        assert SpliceIn([ts[0], n], p, Delete) == [n] by {
          assert [ts[0], n][1..] == [n];
          assert [n][1..] == [];
        }
      } else {
        ReplaceThenDelete(ts[0], p, n);
        SpliceInConcat([Splice(ts[0], p, InsertAfter(n))], rest, p, Delete);
        assert [Splice(ts[0], p, InsertAfter(n))][1..] == [];
      }
    }
  }

  /** In a forest with distinct identifiers, the edited node is edited where it stands. */
  lemma {:induction false} SpliceInAt(ts: seq<Xnode>, i: nat, p: NodeId, e: Edit)
    requires DistinctIn(ts) && i < |ts| && ts[i].id == p
    ensures SpliceIn(ts, p, e) == ts[..i] + Edited(e, ts[i]) + ts[i + 1..]
  {
    if i == 0 {
      SpliceInAtHead(ts, p, e);
    } else {
      OwnId(ts[i]);
      IdsInCons(ts);
      ChildDisjoint(ts, 0, i);
      OwnId(ts[0]);
      SpliceAbsent(ts[0], p, e);
      SpliceInAt(ts[1..], i - 1, p, e);
      SlicesAfterHead(ts, i, Edited(e, ts[i]));
    }
  }

  lemma SpliceInAtHead(ts: seq<Xnode>, p: NodeId, e: Edit)
    requires DistinctIn(ts) && ts != [] && ts[0].id == p
    ensures SpliceIn(ts, p, e) == Edited(e, ts[0]) + ts[1..]
  {
    OwnId(ts[0]);
    IdsInCons(ts);
    SpliceInAbsent(ts[1..], p, e);
  }

  lemma SlicesAfterHead(ts: seq<Xnode>, i: nat, mid: seq<Xnode>)
    requires 0 < i < |ts|
    ensures [ts[0]] + (ts[1..][..i - 1] + mid + ts[1..][i - 1 + 1..]) == ts[..i] + mid + ts[i + 1..]
  {
    assert ts[1..][..i - 1] == ts[1..i];
    assert ts[1..][i - 1 + 1..] == ts[i + 1..];
    assert ts[..i] == [ts[0]] + ts[1..i];
  }

  /**
   * An edit of node `p` removes the identifiers of its subtree and adds those
   * of the forest put in its place; when that forest has distinct identifiers
   * that clash with no other node, all identifiers stay distinct.
   */
  lemma {:induction false} SpliceIds(t: Xnode, p: NodeId, e: Edit)
    requires Distinct(t) && t.id != p && Find(t, p).Some?
    requires DistinctIn(Edited(e, Find(t, p).value))
    requires IdsIn(Edited(e, Find(t, p).value)) !! (IdsOf(t) - IdsOf(Find(t, p).value))
    ensures IdsOf(Splice(t, p, e)) == (IdsOf(t) - IdsOf(Find(t, p).value)) + IdsIn(Edited(e, Find(t, p).value))
    ensures Distinct(Splice(t, p, e))
    decreases t, 0
  {
    FindSpec(t, p);
    FindInSpec(t.children, p);
    assert Find(t, p) == FindIn(t.children, p);
    var f := Find(t, p).value;
    assert IdsOf(f) <= IdsIn(t.children);
    assert IdsOf(t) == IdsIn(t.children) + {t.id};
    RootEdited(IdsIn(t.children), t.id, IdsOf(f), IdsIn(Edited(e, f)));
    SpliceInIds(t.children, p, e);
    assert IdsOf(Splice(t, p, e)) == IdsIn(SpliceIn(t.children, p, e)) + {t.id};
  }

  /** Set algebra for `SpliceIds`: an edit below the root `x` keeps it. */
  lemma RootEdited(c: set<NodeId>, x: NodeId, f: set<NodeId>, n: set<NodeId>)
    requires x !in c && f <= c && n !! ((c + {x}) - f)
    ensures n !! (c - f) && ((c - f) + n) + {x} == ((c + {x}) - f) + n && x !in (c - f) + n
  {
  }

  lemma {:induction false} SpliceInIds(ts: seq<Xnode>, p: NodeId, e: Edit)
    requires DistinctIn(ts) && FindIn(ts, p).Some?
    requires DistinctIn(Edited(e, FindIn(ts, p).value))
    requires IdsIn(Edited(e, FindIn(ts, p).value)) !! (IdsIn(ts) - IdsOf(FindIn(ts, p).value))
    ensures IdsIn(SpliceIn(ts, p, e)) == (IdsIn(ts) - IdsOf(FindIn(ts, p).value)) + IdsIn(Edited(e, FindIn(ts, p).value))
    ensures DistinctIn(SpliceIn(ts, p, e))
    decreases ts, 1
  {
    if ts[0].id == p {
      SpliceInIdsHere(ts, p, e);
    } else if p in IdsOf(ts[0]) {
      SpliceInIdsFirst(ts, p, e);
    } else {
      SpliceInIdsRest(ts, p, e);
    }
  }

  lemma SpliceInIdsHere(ts: seq<Xnode>, p: NodeId, e: Edit)
    requires DistinctIn(ts) && ts != [] && ts[0].id == p
    requires DistinctIn(Edited(e, ts[0])) && IdsIn(Edited(e, ts[0])) !! (IdsIn(ts) - IdsOf(ts[0]))
    ensures FindIn(ts, p) == Some(ts[0])
    ensures IdsIn(SpliceIn(ts, p, e)) == (IdsIn(ts) - IdsOf(ts[0])) + IdsIn(Edited(e, ts[0]))
    ensures DistinctIn(SpliceIn(ts, p, e))
  {
    var rest := ts[1..];
    OwnId(ts[0]);
    IdsInCons(ts);
    SpliceInAbsent(rest, p, e);
    ViewInConcat(Edited(e, ts[0]), rest);
  }

  lemma {:induction false} SpliceInIdsFirst(ts: seq<Xnode>, p: NodeId, e: Edit)
    requires DistinctIn(ts) && ts != [] && ts[0].id != p && p in IdsOf(ts[0])
    requires FindIn(ts, p).Some? && DistinctIn(Edited(e, FindIn(ts, p).value))
    requires IdsIn(Edited(e, FindIn(ts, p).value)) !! (IdsIn(ts) - IdsOf(FindIn(ts, p).value))
    ensures IdsIn(SpliceIn(ts, p, e)) == (IdsIn(ts) - IdsOf(FindIn(ts, p).value)) + IdsIn(Edited(e, FindIn(ts, p).value))
    ensures DistinctIn(SpliceIn(ts, p, e))
    decreases ts, 0
  {
    var ts' := SpliceIn(ts, p, e);
    var rest := ts[1..];
    IdsInCons(ts);
    FindSpec(ts[0], p);
    assert FindIn(ts, p) == Find(ts[0], p);
    var f := Find(ts[0], p).value;
    assert IdsOf(f) <= IdsOf(ts[0]);
    FirstEdited(IdsOf(ts[0]), IdsIn(rest), IdsOf(f), IdsIn(Edited(e, f)));
    SpliceIds(ts[0], p, e);
    SpliceInAbsent(rest, p, e);
    assert ts' == [Splice(ts[0], p, e)] + rest;
    IdsInCons(ts');
    assert ts'[1..] == rest;
  }

  /** Set algebra for `SpliceInIdsFirst`: an edit inside `a` leaves the disjoint part `r` in place. */
  lemma FirstEdited(a: set<NodeId>, r: set<NodeId>, f: set<NodeId>, n: set<NodeId>)
    requires a !! r && f <= a && n !! ((a + r) - f)
    ensures n !! (a - f) && ((a - f) + n) + r == ((a + r) - f) + n && ((a - f) + n) !! r
  {
  }

  lemma {:induction false} SpliceInIdsRest(ts: seq<Xnode>, p: NodeId, e: Edit)
    requires DistinctIn(ts) && ts != [] && p !in IdsOf(ts[0])
    requires FindIn(ts, p).Some? && DistinctIn(Edited(e, FindIn(ts, p).value))
    requires IdsIn(Edited(e, FindIn(ts, p).value)) !! (IdsIn(ts) - IdsOf(FindIn(ts, p).value))
    ensures IdsIn(SpliceIn(ts, p, e)) == (IdsIn(ts) - IdsOf(FindIn(ts, p).value)) + IdsIn(Edited(e, FindIn(ts, p).value))
    ensures DistinctIn(SpliceIn(ts, p, e))
    decreases ts, 0
  {
    var ts' := SpliceIn(ts, p, e);
    var rest := ts[1..];
    IdsInCons(ts);
    OwnId(ts[0]);
    SpliceAbsent(ts[0], p, e);
    assert FindIn(ts, p) == FindIn(rest, p);
    FindInSpec(rest, p);
    var f := FindIn(rest, p).value;
    assert IdsOf(f) <= IdsIn(rest);
    SpliceInIds(rest, p, e);
    var rest' := SpliceIn(rest, p, e);
    assert ts' == [ts[0]] + rest';
    IdsInCons(ts');
    assert ts'[1..] == rest';
    OthersKept(IdsOf(ts[0]), IdsIn(rest), IdsOf(f), IdsIn(Edited(e, f)), IdsIn(rest'));
  }

  /** Set algebra for `SpliceInIdsRest`: an edit inside `r` leaves the disjoint part `a` in place. */
  lemma OthersKept(a: set<NodeId>, r: set<NodeId>, f: set<NodeId>, n: set<NodeId>, s: set<NodeId>)
    requires a !! r && f <= r && n !! ((a + r) - f) && s == (r - f) + n
    ensures a + s == ((a + r) - f) + n && a !! s
  {
  }

  /** `insertAfter(n)` with a fresh tree `n` adds exactly the identifiers of `n`. */
  lemma InsertAfterIds(t: Xnode, p: NodeId, n: Xnode)
    requires Distinct(t) && Distinct(n) && IdsOf(n) !! IdsOf(t) && t.id != p && p in IdsOf(t)
    ensures IdsOf(Splice(t, p, InsertAfter(n))) == IdsOf(t) + IdsOf(n)
    ensures Distinct(Splice(t, p, InsertAfter(n)))
  {
    FindSpec(t, p);
    var u := Find(t, p).value;
    ViewInConcat([u], [n]);
    ViewInSingle(u);
    ViewInSingle(n);
    assert Edited(InsertAfter(n), u) == [u] + [n];
    SpliceIds(t, p, InsertAfter(n));
  }

  /** `delete()` removes exactly the identifiers of the deleted subtree. */
  lemma DeleteIds(t: Xnode, p: NodeId)
    requires Distinct(t) && t.id != p && p in IdsOf(t)
    ensures Find(t, p).Some?
    ensures IdsOf(Splice(t, p, Delete)) == IdsOf(t) - IdsOf(Find(t, p).value)
    ensures Distinct(Splice(t, p, Delete))
  {
    FindSpec(t, p);
    SpliceIds(t, p, Delete);
  }

  /** Putting a fresh tree `n` in the place of node `p` swaps the identifiers of `p`'s subtree for those of `n`. */
  lemma ReplaceIds(t: Xnode, p: NodeId, n: Xnode)
    requires Distinct(t) && Distinct(n) && IdsOf(n) !! IdsOf(t) && t.id != p && Find(t, p).Some?
    ensures IdsOf(Splice(t, p, ReplaceBy(n))) == (IdsOf(t) - IdsOf(Find(t, p).value)) + IdsOf(n)
    ensures Distinct(Splice(t, p, ReplaceBy(n)))
  {
    ViewInSingle(n);
    SpliceIds(t, p, ReplaceBy(n));
  }

  /**
   * A replacement inside a tree whose root kind is the searched kind, with no
   * such node below it and none in the new tree, takes exactly that node out
   * of `matchAll`.
   */
  lemma {:induction false} ReplaceMatchAll(t: Xnode, p: NodeId, n: Xnode, k: Xcode)
    requires Distinct(t) && t.id != p && Find(t, p).Some?
    requires Find(t, p).value.kind == k && MatchAllIn(Find(t, p).value.children, k) == [] && MatchAll(n, k) == []
    ensures MatchAll(Splice(t, p, ReplaceBy(n)), k) == Without(MatchAll(t, k), p)
    decreases t
  {
    ReplaceInMatchAll(t.children, p, n, k);
    var own := if t.kind == k then [t.id] else [];
    WithoutAbsent(own, p);
    WithoutConcat(own, MatchAllIn(t.children, k), p);
  }

  lemma {:induction false} ReplaceInMatchAll(ts: seq<Xnode>, p: NodeId, n: Xnode, k: Xcode)
    requires DistinctIn(ts) && FindIn(ts, p).Some?
    requires FindIn(ts, p).value.kind == k && MatchAllIn(FindIn(ts, p).value.children, k) == [] && MatchAll(n, k) == []
    ensures MatchAllIn(SpliceIn(ts, p, ReplaceBy(n)), k) == Without(MatchAllIn(ts, k), p)
    decreases ts
  {
    var ts' := SpliceIn(ts, p, ReplaceBy(n));
    var rest := ts[1..];
    FindInSpec(ts, p);
    MatchAllInSpec(rest, k);
    MatchAllSpec(ts[0], k);
    WithoutConcat(MatchAll(ts[0], k), MatchAllIn(rest, k), p);
    if ts[0].id == p {
      SpliceInAbsent(rest, p, ReplaceBy(n));
      assert ts' == [n] + rest;
      assert ts'[1..] == rest;
      WithoutAbsent(MatchAllIn(rest, k), p);
    } else if p in IdsOf(ts[0]) {
      FindSpec(ts[0], p);
      ReplaceMatchAll(ts[0], p, n, k);
      SpliceInAbsent(rest, p, ReplaceBy(n));
      assert ts'[1..] == rest;
      WithoutAbsent(MatchAllIn(rest, k), p);
    } else {
      OwnId(ts[0]);
      SpliceAbsent(ts[0], p, ReplaceBy(n));
      WithoutAbsent(MatchAll(ts[0], k), p);
      ReplaceInMatchAll(rest, p, n, k);
      assert ts'[1..] == SpliceIn(rest, p, ReplaceBy(n));
    }
  }

  /**
   * A node outside the replaced subtree is found again, with the replacement
   * made inside it (which changes nothing when the subtrees are disjoint).
   */
  lemma {:induction false} ReplaceFind(t: Xnode, p: NodeId, n: Xnode, q: NodeId)
    requires Distinct(t) && Distinct(n) && IdsOf(n) !! IdsOf(t) && t.id != p && Find(t, p).Some?
    requires q in IdsOf(t) && q !in IdsOf(Find(t, p).value)
    ensures Find(t, q).Some? && Find(Splice(t, p, ReplaceBy(n)), q) == Some(Splice(Find(t, q).value, p, ReplaceBy(n)))
    decreases t
  {
    FindSpec(t, q);
    if t.id != q {
      FindSpec(t, p);
      ReplaceInFind(t.children, p, n, q);
    }
  }

  lemma {:induction false} ReplaceInFind(ts: seq<Xnode>, p: NodeId, n: Xnode, q: NodeId)
    requires DistinctIn(ts) && Distinct(n) && IdsOf(n) !! IdsIn(ts) && FindIn(ts, p).Some?
    requires q in IdsIn(ts) && q !in IdsOf(FindIn(ts, p).value)
    ensures FindIn(ts, q).Some? && FindIn(SpliceIn(ts, p, ReplaceBy(n)), q) == Some(Splice(FindIn(ts, q).value, p, ReplaceBy(n)))
    decreases ts
  {
    var ts' := SpliceIn(ts, p, ReplaceBy(n));
    var rest := ts[1..];
    FindInSpec(ts, p);
    FindInSpec(ts, q);
    if ts[0].id == p {
      FindSpec(ts[0], p);
      SpliceInAbsent(rest, p, ReplaceBy(n));
      assert ts' == [n] + rest;
      assert ts'[1..] == rest;
      FindInSpec(rest, q);
      SpliceAbsent(FindIn(rest, q).value, p, ReplaceBy(n));
    } else if p in IdsOf(ts[0]) {
      FindSpec(ts[0], p);
      ReplaceIds(ts[0], p, n);
      SpliceInAbsent(rest, p, ReplaceBy(n));
      assert ts'[1..] == rest;
      if q in IdsOf(ts[0]) {
        ReplaceFind(ts[0], p, n, q);
      } else {
        FindInSpec(rest, q);
        SpliceAbsent(FindIn(rest, q).value, p, ReplaceBy(n));
      }
    } else {
      OwnId(ts[0]);
      SpliceAbsent(ts[0], p, ReplaceBy(n));
      assert ts'[1..] == SpliceIn(rest, p, ReplaceBy(n));
      if q in IdsOf(ts[0]) {
        FindSpec(ts[0], q);
        SpliceAbsent(Find(ts[0], q).value, p, ReplaceBy(n));
      } else {
        ReplaceInFind(rest, p, n, q);
      }
    }
  }

  /** The replacement takes the replaced node's position among its parent's children. */
  lemma ReplaceTakesPosition(t: Xnode, p: NodeId, n: Xnode, parent: NodeId, i: nat)
    requires Distinct(t) && Distinct(n) && IdsOf(n) !! IdsOf(t)
    requires Find(t, parent).Some? && i < |Find(t, parent).value.children| && Find(t, parent).value.children[i].id == p
    ensures var s := Find(t, parent).value;
      Find(Splice(t, p, ReplaceBy(n)), parent) == Some(s.(children := s.children[..i] + [n] + s.children[i + 1..]))
  {
    var s := Find(t, parent).value;
    FindSpec(t, parent);
    FindChild(t, parent, i);
    ViewInParts(s.children, i);
    OwnId(t);
    if t.id == p {
      assert false;
    }
    ReplaceFind(t, p, n, parent);
    SpliceInAt(s.children, i, p, ReplaceBy(n));
  }

  // ---------------------------------------------------------------------
  // cloneNode: a deep copy whose nodes take consecutive fresh identifiers

  /** The number of nodes of a tree. */
  function Size(t: Xnode): nat
  {
    1 + SizeIn(t.children)
  }

  function SizeIn(ts: seq<Xnode>): nat
  {
    if ts == [] then 0 else Size(ts[0]) + SizeIn(ts[1..])
  }

  /** The copy of `t` whose nodes are numbered `b`, `b + 1`, ... in pre-order. */
  function Clone(t: Xnode, b: NodeId): Xnode
  {
    t.(id := b, children := CloneIn(t.children, b + 1))
  }

  function CloneIn(ts: seq<Xnode>, b: NodeId): seq<Xnode>
  {
    if ts == [] then [] else [Clone(ts[0], b)] + CloneIn(ts[1..], b + Size(ts[0]))
  }

  /** A tree stripped of its identifiers: what a copy has in common with its original. */
  datatype Shape = Shape(kind: Xcode, nameAttr: string, ty: TypeRef, value: string, line: int, children: seq<Shape>)

  function Erase(t: Xnode): Shape
  {
    Shape(t.kind, t.nameAttr, t.ty, t.value, t.line, EraseIn(t.children))
  }

  function EraseIn(ts: seq<Xnode>): seq<Shape>
  {
    if ts == [] then [] else [Erase(ts[0])] + EraseIn(ts[1..])
  }

  /** A copy uses exactly `Size(t)` fresh identifiers from `b` on, each once. */
  lemma {:induction false} CloneIds(t: Xnode, b: NodeId)
    ensures forall x :: x in IdsOf(Clone(t, b)) <==> b <= x < b + Size(t)
    ensures Distinct(Clone(t, b))
  {
    CloneInIds(t.children, b + 1);
    var c := Clone(t, b);
    assert IdsOf(c) == IdsIn(c.children) + {c.id};
  }

  lemma {:induction false} CloneInIds(ts: seq<Xnode>, b: NodeId)
    ensures forall x :: x in IdsIn(CloneIn(ts, b)) <==> b <= x < b + SizeIn(ts)
    ensures DistinctIn(CloneIn(ts, b))
  {
    if ts != [] {
      var cs := CloneIn(ts, b);
      CloneIds(ts[0], b);
      CloneInIds(ts[1..], b + Size(ts[0]));
      assert cs[1..] == CloneIn(ts[1..], b + Size(ts[0]));
      IdsInCons(cs);
    }
  }

  /** A copy differs from its original only in its identifiers. */
  lemma {:induction false} CloneShape(t: Xnode, b: NodeId)
    ensures Erase(Clone(t, b)) == Erase(t)
  {
    CloneInShape(t.children, b + 1, t.kind);
  }

  lemma {:induction false} CloneKinds(t: Xnode, b: NodeId, k: Xcode)
    ensures |MatchAll(Clone(t, b), k)| == |MatchAll(t, k)|
  {
    CloneInShape(t.children, b + 1, k);
  }

  lemma {:induction false} CloneInShape(ts: seq<Xnode>, b: NodeId, k: Xcode)
    ensures EraseIn(CloneIn(ts, b)) == EraseIn(ts)
    ensures |MatchAllIn(CloneIn(ts, b), k)| == |MatchAllIn(ts, k)|
  {
    if ts != [] {
      var cs := CloneIn(ts, b);
      CloneShape(ts[0], b);
      CloneKinds(ts[0], b, k);
      CloneInShape(ts[1..], b + Size(ts[0]), k);
      assert cs[1..] == CloneIn(ts[1..], b + Size(ts[0]));
    }
  }

  // ---------------------------------------------------------------------
  // append: a node becomes the last child of node `a`

  function AppendChild(t: Xnode, a: NodeId, c: Xnode): Xnode
  {
    var cs := AppendIn(t.children, a, c);
    t.(children := if t.id == a then cs + [c] else cs)
  }

  function AppendIn(ts: seq<Xnode>, a: NodeId, c: Xnode): seq<Xnode>
  {
    if ts == [] then [] else [AppendChild(ts[0], a, c)] + AppendIn(ts[1..], a, c)
  }

  /** Appending under a node that is not in the tree changes nothing. */
  lemma {:induction false} AppendAbsent(t: Xnode, a: NodeId, c: Xnode)
    requires a !in IdsOf(t)
    ensures AppendChild(t, a, c) == t
  {
    AppendInAbsent(t.children, a, c);
  }

  lemma {:induction false} AppendInAbsent(ts: seq<Xnode>, a: NodeId, c: Xnode)
    requires a !in IdsIn(ts)
    ensures AppendIn(ts, a, c) == ts
  {
    if ts != [] {
      AppendAbsent(ts[0], a, c);
      AppendInAbsent(ts[1..], a, c);
    }
  }
}
