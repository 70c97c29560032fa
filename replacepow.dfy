/**
 * `ReplacePow`: the lowering of the Fortran exponentiation operator `**`.
 *
 * One pass adds a placeholder function type returning `REAL` to the type
 * table, asks for a `USE` of the power module for every `**` node (in the
 * declarations block that is a direct child of the operator node itself, and
 * once per operator), and then replaces every operator that has no
 * declarations block above it by a call of the power function on copies of
 * its two operands. An operator without exactly two children stops the pass
 * with an error; what was done before stays done.
 *
 * The pass is specified by two folds over the tree: `WithUses` for the
 * imports and `LowerAll` for the replacements.
 *
 * A `**` node whose children are its two operands has no declarations block
 * among them, so the imports as written cannot succeed on it
 * (`RealOperatorRejected`). `ScopedPass` and `TransformScoped` are the pass
 * as evidently intended: one `USE` in each scope that `getModule` finds for
 * an operator, then the same replacements.
 */
module ReplacePow {
  import opened Wrappers
  import opened Xtree
  import opened Xedit
  import opened XcodeML
  import opened ModuleHelper
  import opened JavaUtil

  /** `IllegalTransformationException`: a message and the line of the node it is about. */
  datatype IllegalTransformation = IllegalTransformation(message: string, line: int)

  /** The error raised for an operator with `n` children on line `line`. */
  function ArityError(n: nat, line: int): IllegalTransformation
  {
    IllegalTransformation("Unexpected number of arguments: " + NatToString(n), line)
  }

  /** The count in an arity error can be read back from its message. */
  lemma ArityErrorCount(n: nat, line: int)
    ensures var m := ArityError(n, line).message;
      var prefix := "Unexpected number of arguments: ";
      |m| > |prefix| && m[..|prefix|] == prefix &&
      (forall i | |prefix| <= i < |m| :: '0' <= m[i] <= '9') && DecimalValue(m[|prefix|..]) == n
  {
    var prefix := "Unexpected number of arguments: ";
    var m := ArityError(n, line).message;
    assert m[|prefix|..] == NatToString(n);
    DecimalValueNatToString(n);
  }

  // ---------------------------------------------------------------------
  // The call that takes an operator's place

  /**
   * The tree `createFctCall(TYPE_F_REAL, name, hash)` builds from identifier
   * `b` on, once `a0` and then `a1` have been appended to its argument list.
   */
  function PowCall(b: NodeId, name: string, hash: nat, a0: Xnode, a1: Xnode): Xnode
  {
    Xnode(b, FunctionCall, "", BasicType(TypeFReal), "", 0, [
      Xnode(b + 1, Name, "", FunctionTypeRef(hash), name, 0, []),
      Xnode(b + 2, Arguments, "", NoType, "", 0, [a0, a1])])
  }

  /** The call replacing operator node `op`: copies of its child 0 and child 1, numbered after the call's own nodes. */
  function CallFor(op: Xnode, b: NodeId, name: string, hash: nat): Xnode
    requires |op.children| == 2
  {
    PowCall(b, name, hash, Clone(op.children[0], b + 3), Clone(op.children[1], b + 3 + Size(op.children[0])))
  }

  /** The number of identifiers `CallFor` uses. */
  function CallSize(op: Xnode): nat
    requires |op.children| == 2
  {
    3 + Size(op.children[0]) + Size(op.children[1])
  }

  /** `matchDescendant(ARGUMENTS)` on a new call finds its argument list. */
  lemma FctCallArguments(b: NodeId, name: string, hash: nat)
    ensures FirstDescendant(FctCall(b, TypeFReal, name, hash), Arguments) == Some(b + 2)
  {
    var c := FctCall(b, TypeFReal, name, hash);
    var n1, n2 := c.children[0], c.children[1];
    assert c.children[1..] == [n2];
    assert MatchAll(n1, Arguments) == [];
    assert MatchAll(n2, Arguments) == [b + 2];
    assert MatchAllIn([n2], Arguments) == MatchAll(n2, Arguments) + MatchAllIn([], Arguments);
  }

  /** Appending the two operands to that argument list in turn gives `PowCall`. */
  lemma BuildPowCall(b: NodeId, name: string, hash: nat, a0: Xnode, a1: Xnode)
    requires b + 2 !in IdsOf(a0)
    ensures AppendChild(AppendChild(FctCall(b, TypeFReal, name, hash), b + 2, a0), b + 2, a1) == PowCall(b, name, hash, a0, a1)
  {
    AppendFirstOperand(b, name, hash, a0);
    AppendSecondOperand(b, name, hash, a0, a1);
  }

  /** The new call with `a0` appended to its argument list. */
  function OneOperand(b: NodeId, name: string, hash: nat, a0: Xnode): Xnode
  {
    Xnode(b, FunctionCall, "", BasicType(TypeFReal), "", 0, [
      Xnode(b + 1, Name, "", FunctionTypeRef(hash), name, 0, []),
      Xnode(b + 2, Arguments, "", NoType, "", 0, [a0])])
  }

  lemma AppendFirstOperand(b: NodeId, name: string, hash: nat, a0: Xnode)
    ensures AppendChild(FctCall(b, TypeFReal, name, hash), b + 2, a0) == OneOperand(b, name, hash, a0)
  {
    var c := FctCall(b, TypeFReal, name, hash);
    var n1, n2 := c.children[0], c.children[1];
    assert c.children[1..] == [n2];
    assert AppendIn([n2], b + 2, a0) == [AppendChild(n2, b + 2, a0)] + AppendIn([], b + 2, a0);
    assert AppendChild(n1, b + 2, a0) == n1;
    assert AppendChild(n2, b + 2, a0) == n2.(children := [a0]);
    assert AppendIn(c.children, b + 2, a0) == [AppendChild(n1, b + 2, a0)] + AppendIn(c.children[1..], b + 2, a0);
  }

  lemma AppendSecondOperand(b: NodeId, name: string, hash: nat, a0: Xnode, a1: Xnode)
    requires b + 2 !in IdsOf(a0)
    ensures AppendChild(OneOperand(b, name, hash, a0), b + 2, a1) == PowCall(b, name, hash, a0, a1)
  {
    var c1 := OneOperand(b, name, hash, a0);
    var n1, m2 := c1.children[0], c1.children[1];
    AppendAbsent(a0, b + 2, a1);
    assert AppendIn([a0], b + 2, a1) == [AppendChild(a0, b + 2, a1)] + AppendIn([], b + 2, a1);
    assert c1.children[1..] == [m2];
    assert AppendIn([m2], b + 2, a1) == [AppendChild(m2, b + 2, a1)] + AppendIn([], b + 2, a1);
    assert AppendChild(n1, b + 2, a1) == n1;
    assert AppendIn(c1.children, b + 2, a1) == [AppendChild(n1, b + 2, a1)] + AppendIn(c1.children[1..], b + 2, a1);
    assert AppendChild(m2, b + 2, a1) == m2.(children := [a0, a1]);
  }

  /** A node with two children holds its own identifier and theirs, each once. */
  lemma TwoChildrenIds(n: Xnode)
    requires |n.children| == 2
    requires Distinct(n.children[0]) && Distinct(n.children[1]) && IdsOf(n.children[0]) !! IdsOf(n.children[1])
    requires n.id !in IdsOf(n.children[0]) && n.id !in IdsOf(n.children[1])
    ensures IdsOf(n) == {n.id} + IdsOf(n.children[0]) + IdsOf(n.children[1]) && Distinct(n)
  {
    var c0, c1 := n.children[0], n.children[1];
    assert n.children == [c0] + [c1];
    ViewInConcat([c0], [c1]);
    ViewInSingle(c0);
    ViewInSingle(c1);
  }

  /** The call's nodes are its own three and those of the operands, each once. */
  lemma PowCallIds(b: NodeId, name: string, hash: nat, a0: Xnode, a1: Xnode)
    requires Distinct(a0) && Distinct(a1) && IdsOf(a0) !! IdsOf(a1)
    requires forall x | x in IdsOf(a0) :: x >= b + 3
    requires forall x | x in IdsOf(a1) :: x >= b + 3
    ensures IdsOf(PowCall(b, name, hash, a0, a1)) == {b, b + 1, b + 2} + IdsOf(a0) + IdsOf(a1)
    ensures Distinct(PowCall(b, name, hash, a0, a1))
  {
    var c := PowCall(b, name, hash, a0, a1);
    var nameNode, args := c.children[0], c.children[1];
    TwoChildrenIds(args);
    assert IdsOf(nameNode) == {b + 1} by {
      OwnInfo(nameNode);
    }
    TwoChildrenIds(c);
  }

  /** The replacing call uses exactly the identifiers from `b` to `b + CallSize(op) - 1`, each once. */
  lemma CallForIds(op: Xnode, b: NodeId, name: string, hash: nat)
    requires |op.children| == 2
    ensures forall x :: x in IdsOf(CallFor(op, b, name, hash)) <==> b <= x < b + CallSize(op)
    ensures Distinct(CallFor(op, b, name, hash))
  {
    var x0, x1 := op.children[0], op.children[1];
    var a0, a1 := Clone(x0, b + 3), Clone(x1, b + 3 + Size(x0));
    CloneIds(x0, b + 3);
    CloneIds(x1, b + 3 + Size(x0));
    PowCallIds(b, name, hash, a0, a1);
    assert CallFor(op, b, name, hash) == PowCall(b, name, hash, a0, a1);
    ThreeIntervals(b, IdsOf(a0), Size(x0), IdsOf(a1), Size(x1), IdsOf(PowCall(b, name, hash, a0, a1)));
  }

  /** The call's own three identifiers followed by two consecutive ranges make one range. */
  lemma ThreeIntervals(b: NodeId, s0: set<NodeId>, n0: nat, s1: set<NodeId>, n1: nat, all: set<NodeId>)
    requires forall x :: x in s0 <==> b + 3 <= x < b + 3 + n0
    requires forall x :: x in s1 <==> b + 3 + n0 <= x < b + 3 + n0 + n1
    requires all == {b, b + 1, b + 2} + s0 + s1
    ensures forall x :: x in all <==> b <= x < b + 3 + n0 + n1
  {
  }

  /**
   * The replacing call is a call of `name` with the function type `hash`,
   * returning `REAL`, whose arguments are copies of the operator's child 0
   * and child 1, in that order.
   */
  lemma CallForShape(op: Xnode, b: NodeId, name: string, hash: nat)
    requires |op.children| == 2
    ensures var c := CallFor(op, b, name, hash);
      && c.kind == FunctionCall && c.ty == BasicType(TypeFReal)
      && c.children[0].kind == Name && c.children[0].value == name && c.children[0].ty == FunctionTypeRef(hash)
      && c.children[1].kind == Arguments
      && EraseIn(c.children[1].children) == EraseIn(op.children)
  {
    var x0, x1 := op.children[0], op.children[1];
    var a0, a1 := Clone(x0, b + 3), Clone(x1, b + 3 + Size(x0));
    CloneShape(x0, b + 3);
    CloneShape(x1, b + 3 + Size(x0));
    var c := CallFor(op, b, name, hash);
    assert c.children[1].children == [a0, a1] && [a0, a1][1..] == [a1];
    assert EraseIn([a1]) == [Erase(a1)] + EraseIn([]);
    assert EraseIn([a0, a1]) == [Erase(a0)] + EraseIn([a1]);
    assert op.children == [x0, x1] && [x0, x1][1..] == [x1];
    assert EraseIn([x1]) == [Erase(x1)] + EraseIn([]);
    assert EraseIn([x0, x1]) == [Erase(x0)] + EraseIn([x1]);
  }

  /** The replacing call holds no `**` when the operator's operands hold none. */
  lemma CallForNoPow(op: Xnode, b: NodeId, name: string, hash: nat)
    requires |op.children| == 2 && MatchAllIn(op.children, FPowerExpr) == []
    ensures MatchAll(CallFor(op, b, name, hash), FPowerExpr) == []
  {
    var x0, x1 := op.children[0], op.children[1];
    var a0, a1 := Clone(x0, b + 3), Clone(x1, b + 3 + Size(x0));
    var c := CallFor(op, b, name, hash);
    assert op.children == [x0, x1] && [x0, x1][1..] == [x1];
    assert MatchAllIn(op.children, FPowerExpr) == MatchAll(x0, FPowerExpr) + MatchAll(x1, FPowerExpr);
    CloneKinds(x0, b + 3, FPowerExpr);
    CloneKinds(x1, b + 3 + Size(x0), FPowerExpr);
    var args := c.children[1];
    assert args.children == [a0, a1] && [a0, a1][1..] == [a1];
    assert MatchAllIn([a1], FPowerExpr) == MatchAll(a1, FPowerExpr) + MatchAllIn([], FPowerExpr);
    assert MatchAllIn(args.children, FPowerExpr) == MatchAll(a0, FPowerExpr) + MatchAll(a1, FPowerExpr);
    assert c.children[1..] == [args];
    assert MatchAllIn([args], FPowerExpr) == MatchAll(args, FPowerExpr) + MatchAllIn([], FPowerExpr);
    assert MatchAllIn(c.children, FPowerExpr) == MatchAll(c.children[0], FPowerExpr) + MatchAll(args, FPowerExpr);
  }

  // ---------------------------------------------------------------------
  // Replacing the queued operators, in order

  /** The tree, the next free identifier, and the error that stopped the pass, if any. */
  datatype Outcome = Outcome(tree: Xnode, next: NodeId, error: Option<IllegalTransformation>)

  /**
   * `replaceExponentiation` on operator `q` followed by `safeDelete(q)`: the
   * call numbered from `b` takes the operator's place, or, for an operator
   * without exactly two children, an error and no change.
   */
  function LowerOne(t: Xnode, q: NodeId, b: NodeId, name: string, hash: nat): Outcome
  {
    match Find(t, q)
    case None => Outcome(t, b, None)
    case Some(op) =>
      if |op.children| != 2 then Outcome(t, b, Some(ArityError(|op.children|, op.line)))
      else Outcome(Splice(t, q, ReplaceBy(CallFor(op, b, name, hash))), b + CallSize(op), None)
  }

  /** The operators `qs` replaced in order, up to the first error. */
  function LowerAll(t: Xnode, qs: seq<NodeId>, b: NodeId, name: string, hash: nat): Outcome
    decreases |qs|
  {
    if qs == [] then Outcome(t, b, None)
    else
      var o := LowerOne(t, qs[0], b, name, hash);
      if o.error.Some? then o else LowerAll(o.tree, qs[1..], o.next, name, hash)
  }

  /**
   * Each of `qs` (listed once) is an operator node of the tree other than
   * its root, with no operator below it.
   */
  ghost predicate Ready(t: Xnode, qs: seq<NodeId>)
  {
    Distinct(t) && NoDup(qs) &&
    forall q | q in qs ::
      q != t.id && Find(t, q).Some? && Find(t, q).value.kind == FPowerExpr &&
      MatchAllIn(Find(t, q).value.children, FPowerExpr) == []
  }

  /** Fresh identifiers start at `b`. */
  ghost predicate FreshFrom(t: Xnode, b: NodeId)
  {
    forall x | x in IdsOf(t) :: x < b
  }

  /** Two operators, neither below the other: the second is not in the first's subtree. */
  lemma PowsApart(t: Xnode, p: NodeId, q: NodeId)
    requires Distinct(t) && p != q && Find(t, p).Some? && MatchAllIn(Find(t, p).value.children, FPowerExpr) == []
    requires Find(t, q).Some? && Find(t, q).value.kind == FPowerExpr
    ensures q !in IdsOf(Find(t, p).value)
  {
    var op := Find(t, p).value;
    FindSpec(t, p);
    FindSpec(t, q);
    OwnInfo(Find(t, q).value);
    MatchAllInSpec(op.children, FPowerExpr);
    assert View(t)[q].kind == FPowerExpr;
    assert q !in OfKind(ViewIn(op.children), FPowerExpr);
    assert q != op.id;
  }

  /**
   * One replacement keeps the remaining operators ready and their subtrees
   * as they were, takes exactly the replaced operator out of `matchAll`, and
   * uses only fresh identifiers.
   */
  lemma LowerOneStep(t: Xnode, qs: seq<NodeId>, b: NodeId, name: string, hash: nat)
    requires Ready(t, qs) && FreshFrom(t, b) && qs != []
    requires LowerOne(t, qs[0], b, name, hash).error.None?
    ensures var o := LowerOne(t, qs[0], b, name, hash);
      && Ready(o.tree, qs[1..]) && FreshFrom(o.tree, o.next) && o.tree.id == t.id
      && (forall q | q in qs[1..] :: Find(o.tree, q) == Find(t, q))
      && MatchAll(o.tree, FPowerExpr) == Without(MatchAll(t, FPowerExpr), qs[0])
  {
    var p := qs[0];
    assert p in qs;
    var op := Find(t, p).value;
    FindSpec(t, p);
    var call := CallFor(op, b, name, hash);
    CallForIds(op, b, name, hash);
    CallForNoPow(op, b, name, hash);
    var t' := Splice(t, p, ReplaceBy(call));
    ReplaceIds(t, p, call);
    ReplaceMatchAll(t, p, call, FPowerExpr);
    forall q | q in qs[1..] ensures Find(t', q) == Find(t, q) {
      assert q in qs && q != p by {
        var i :| 0 <= i < |qs[1..]| && qs[1..][i] == q;
        assert qs[i + 1] == q;
      }
      PowsApart(t, p, q);
      PowsApart(t, q, p);
      FindSpec(t, q);
      ReplaceFind(t, p, call, q);
      SpliceAbsent(Find(t, q).value, p, ReplaceBy(call));
    }
    assert NoDup(qs[1..]) by {
      forall i, j | 0 <= i < j < |qs[1..]| ensures qs[1..][i] != qs[1..][j] {
        assert qs[1..][i] == qs[i + 1] && qs[1..][j] == qs[j + 1];
      }
    }
  }

  /** The first operator of `qs` without exactly two children is the `j`-th. */
  ghost predicate FirstBadArity(t: Xnode, qs: seq<NodeId>, j: nat)
  {
    j < |qs| &&
    (forall i | 0 <= i <= j :: Find(t, qs[i]).Some?) &&
    |Find(t, qs[j]).value.children| != 2 &&
    forall i | 0 <= i < j :: |Find(t, qs[i]).value.children| == 2
  }

  /**
   * The replacements succeed exactly when every queued operator has two
   * children, and then the operators left in the tree are the others.
   */
  lemma {:induction false} LowerAllSucceeds(t: Xnode, qs: seq<NodeId>, b: NodeId, name: string, hash: nat)
    requires Ready(t, qs) && FreshFrom(t, b)
    ensures var o := LowerAll(t, qs, b, name, hash);
      && (o.error.None? <==> forall q | q in qs :: |Find(t, q).value.children| == 2)
      && (o.error.None? ==> forall x :: x in MatchAll(o.tree, FPowerExpr) <==> x in MatchAll(t, FPowerExpr) && x !in qs)
    decreases |qs|
  {
    if qs != [] {
      var p := qs[0];
      assert p in qs;
      var o1 := LowerOne(t, p, b, name, hash);
      if o1.error.None? {
        LowerOneStep(t, qs, b, name, hash);
        LowerAllSucceeds(o1.tree, qs[1..], o1.next, name, hash);
        assert forall q :: q in qs <==> q == p || q in qs[1..] by {
          assert qs == [p] + qs[1..];
        }
      }
    }
  }

  /**
   * When the replacements stop with an error, it is the arity error of the
   * first queued operator without two children, with that operator's line,
   * and every operator queued before it has already been replaced.
   */
  lemma {:induction false} LowerAllFails(t: Xnode, qs: seq<NodeId>, b: NodeId, name: string, hash: nat)
    requires Ready(t, qs) && FreshFrom(t, b)
    ensures var o := LowerAll(t, qs, b, name, hash);
      o.error.Some? ==> exists j: nat ::
        && FirstBadArity(t, qs, j)
        && o.error.value == ArityError(|Find(t, qs[j]).value.children|, Find(t, qs[j]).value.line)
        && o.tree == LowerAll(t, qs[..j], b, name, hash).tree
        && o.next == LowerAll(t, qs[..j], b, name, hash).next
    decreases |qs|
  {
    var o := LowerAll(t, qs, b, name, hash);
    if qs != [] && o.error.Some? {
      var p := qs[0];
      assert p in qs;
      var o1 := LowerOne(t, p, b, name, hash);
      if o1.error.Some? {
        assert FirstBadArity(t, qs, 0);
        assert qs[..0] == [];
      } else {
        LowerOneStep(t, qs, b, name, hash);
        LowerAllFails(o1.tree, qs[1..], o1.next, name, hash);
        var j': nat :| FirstBadArity(o1.tree, qs[1..], j') &&
          o.error.value == ArityError(|Find(o1.tree, qs[1..][j']).value.children|, Find(o1.tree, qs[1..][j']).value.line) &&
          o.tree == LowerAll(o1.tree, qs[1..][..j'], o1.next, name, hash).tree &&
          o.next == LowerAll(o1.tree, qs[1..][..j'], o1.next, name, hash).next;
        var j := j' + 1;
        FirstBadShift(t, o1.tree, qs, j');
        LowerPrefixCons(t, qs, b, name, hash, j');
      }
    }
  }

  /** Replacing the first `j' + 1` operators is replacing the first one, then the next `j'`. */
  lemma LowerPrefixCons(t: Xnode, qs: seq<NodeId>, b: NodeId, name: string, hash: nat, j': nat)
    requires j' < |qs| && LowerOne(t, qs[0], b, name, hash).error.None?
    ensures var o1 := LowerOne(t, qs[0], b, name, hash);
      LowerAll(t, qs[..j' + 1], b, name, hash) == LowerAll(o1.tree, qs[1..][..j'], o1.next, name, hash)
  {
    var ps := qs[..j' + 1];
    assert ps[0] == qs[0];
    TakeTail(qs, j');
  }

  lemma TakeTail(qs: seq<NodeId>, j: nat)
    requires j < |qs|
    ensures qs[..j + 1][1..] == qs[1..][..j]
  {
  }

  /** The first operator without two children, seen from one step further down the queue. */
  lemma FirstBadShift(t: Xnode, t': Xnode, qs: seq<NodeId>, j': nat)
    requires qs != [] && FirstBadArity(t', qs[1..], j')
    requires Find(t, qs[0]).Some? && |Find(t, qs[0]).value.children| == 2
    requires forall q | q in qs[1..] :: Find(t', q) == Find(t, q)
    ensures FirstBadArity(t, qs, j' + 1)
    ensures Find(t', qs[1..][j']) == Find(t, qs[j' + 1])
  {
    var j := j' + 1;
    forall i | 1 <= i <= j ensures Find(t', qs[i]) == Find(t, qs[i]) {
      assert qs[i] == qs[1..][i - 1];
      assert qs[i] in qs[1..];
    }
    forall i | 0 <= i <= j ensures Find(t, qs[i]).Some? {
      if i > 0 {
        assert qs[1..][i - 1] == qs[i];
      }
    }
    forall i | 0 <= i < j ensures |Find(t, qs[i]).value.children| == 2 {
      if i > 0 {
        assert qs[1..][i - 1] == qs[i];
      }
    }
    assert qs[1..][j'] == qs[j];
  }

  /**
   * A successful replacement puts the call exactly where the operator was
   * among its parent's children.
   */
  lemma LowerOnePosition(t: Xnode, b: NodeId, name: string, hash: nat, parent: NodeId, i: nat)
    requires Distinct(t) && FreshFrom(t, b)
    requires Find(t, parent).Some? && i < |Find(t, parent).value.children|
    requires |Find(t, parent).value.children[i].children| == 2
    ensures var s := Find(t, parent).value;
      var o := LowerOne(t, s.children[i].id, b, name, hash);
      && o.error.None?
      && Find(o.tree, parent) == Some(s.(children := s.children[..i] + [CallFor(s.children[i], b, name, hash)] + s.children[i + 1..]))
  {
    var s := Find(t, parent).value;
    var op := s.children[i];
    FindChild(t, parent, i);
    CallForIds(op, b, name, hash);
    ReplaceTakesPosition(t, op.id, CallFor(op, b, name, hash), parent, i);
  }

  // ---------------------------------------------------------------------
  // Importing the power module once per operator

  /** The declarations block `addUse` fills for node `p`: its first direct child of kind `DECLARATIONS`. */
  function Block(v: map<NodeId, Info>, p: NodeId): NodeId
    requires DirectChild(v, p, Declarations).Some?
  {
    DirectChild(v, p, Declarations).value
  }

  /**
   * Every node of `ps` (listed once) is in the tree, is not itself a
   * declarations block, and has a declarations block among its children;
   * fresh identifiers start at `b`.
   */
  ghost predicate ImportReady(t: Xnode, ps: seq<NodeId>, b: NodeId)
  {
    Distinct(t) && NoDup(ps) && FreshFrom(t, b) &&
    forall p | p in ps :: p in View(t) && View(t)[p].kind != Declarations && DirectChild(View(t), p, Declarations).Some?
  }

  /** `addUse(p, name)` for each `p` of `ps` in turn, the `USE` nodes numbered from `b`. */
  function WithUses(t: Xnode, ps: seq<NodeId>, b: NodeId, name: string): Xnode
    decreases |ps|
  {
    if ps == [] then t
    else match DirectChild(View(t), ps[0], Declarations)
      case None => t
      case Some(d) => WithUses(InsertFirstChild(t, d, UseNode(b, name)), ps[1..], b + 1, name)
  }

  /** The declarations blocks of the nodes of `ps`, in order. */
  ghost function Blocks(v: map<NodeId, Info>, ps: seq<NodeId>): (ds: seq<NodeId>)
    requires forall p | p in ps :: DirectChild(v, p, Declarations).Some?
    ensures |ds| == |ps|
  {
    seq(|ps|, i requires 0 <= i < |ps| => Block(v, ps[i]))
  }

  /**
   * `r` is `v` with one new `USE` of `name` per block of `ds`, numbered from
   * `b` in the order of `ds`, each put first in its block, and no other node
   * changed.
   */
  ghost predicate UsesImported(v: map<NodeId, Info>, r: map<NodeId, Info>, ds: seq<NodeId>, b: NodeId, name: string)
  {
    && (forall x :: x in r <==> x in v || b <= x < b + |ds|)
    && (forall x | b <= x < b + |ds| :: r[x] == UseInfo(name))
    && (forall i | 0 <= i < |ds| :: ds[i] in v && r[ds[i]] == v[ds[i]].(childIds := [b + i] + v[ds[i]].childIds))
    && (forall x | x in v && x !in ds :: r[x] == v[x])
  }

  /**
   * The first `addUse` of the fold: it goes into a block of the tree, which
   * no later node of `ps` shares, and leaves the later nodes' blocks as they
   * were.
   */
  lemma WithUsesStep(t: Xnode, ps: seq<NodeId>, b: NodeId, name: string)
    requires ImportReady(t, ps, b) && ps != []
    ensures var d := Block(View(t), ps[0]);
      var t' := InsertFirstChild(t, d, UseNode(b, name));
      && d in View(t) && View(t)[d].kind == Declarations && d != ps[0]
      && View(t') == Prepended(View(t), d, UseNode(b, name))
      && ImportReady(t', ps[1..], b + 1) && t'.id == t.id
      && (forall p | p in ps[1..] :: DirectChild(View(t'), p, Declarations) == DirectChild(View(t), p, Declarations))
      && (forall p | p in ps[1..] :: DirectChild(View(t), p, Declarations) != Some(d))
  {
    var v := View(t);
    var p0 := ps[0];
    assert p0 in ps;
    var d := Block(v, p0);
    FirstOfKindSpec(v, v[p0].childIds, Declarations);
    NotOwnChild(t, p0);
    var u := UseNode(b, name);
    UseNodeView(b, name);
    assert IdsOf(u) == {b};
    InsertFirstView(t, d, u);
    InsertFirstIds(t, d, u);
    PrependedAt(v, d, u);
    LaterBlocks(t, ps, b, d, u);
    NoDupTail(ps);
  }

  /** The later nodes of `ps` keep their blocks when a `USE` goes into the block of the first, which none of them shares. */
  lemma LaterBlocks(t: Xnode, ps: seq<NodeId>, b: NodeId, d: NodeId, u: Xnode)
    requires ImportReady(t, ps, b) && ps != [] && d == Block(View(t), ps[0])
    requires d in View(t) && d in View(t)[ps[0]].childIds && IdsOf(u) == {b}
    ensures forall p | p in ps[1..] ::
      && p in View(t) && View(t)[p].kind != Declarations && p != d
      && DirectChild(Prepended(View(t), d, u), p, Declarations) == DirectChild(View(t), p, Declarations)
      && DirectChild(View(t), p, Declarations) != Some(d)
  {
    var v := View(t);
    forall p | p in ps[1..]
      ensures p in v && v[p].kind != Declarations && p != d
      ensures DirectChild(Prepended(v, d, u), p, Declarations) == DirectChild(v, p, Declarations)
      ensures DirectChild(v, p, Declarations) != Some(d)
    {
      var i :| 0 <= i < |ps[1..]| && ps[1..][i] == p;
      assert ps[i + 1] == p && p in ps && p != ps[0];
      FirstOfKindSpec(v, v[p].childIds, Declarations);
      DirectChildAfterPrepend(t, d, u, p, Declarations);
      if DirectChild(v, p, Declarations) == Some(d) {
        UniqueParent(t, p, ps[0], d);
      }
    }
  }

  /** The tail of a list without duplicates has none. */
  lemma NoDupTail(ps: seq<NodeId>)
    requires NoDup(ps) && ps != []
    ensures NoDup(ps[1..])
  {
    forall i, j | 0 <= i < j < |ps[1..]| ensures ps[1..][i] != ps[1..][j] {
      assert ps[1..][i] == ps[i + 1] && ps[1..][j] == ps[j + 1];
    }
  }

  /** The map-level step of `WithUsesImports`: one `USE` in front of the rest. */
  lemma UsesImportedCons(v: map<NodeId, Info>, v': map<NodeId, Info>, r: map<NodeId, Info>, ds: seq<NodeId>, b: NodeId, name: string)
    requires ds != [] && (forall x | x in v :: x < b) && (forall i | 0 <= i < |ds| :: ds[i] in v)
    requires ds[0] !in ds[1..]
    requires v' == Prepended(v, ds[0], UseNode(b, name))
    requires UsesImported(v', r, ds[1..], b + 1, name)
    ensures UsesImported(v, r, ds, b, name)
  {
    PrependedUse(v, ds[0], b, name, UseNode(b, name), v');
    var ds' := ds[1..];
    assert b !in ds' by {
      forall i | 0 <= i < |ds'| ensures ds'[i] != b {
        assert ds'[i] == ds[i + 1];
      }
    }
    ConsBlocks(v, v', r, ds, b, name);
    forall x | x in v && x !in ds ensures r[x] == v[x] {
      assert x != ds[0] && x !in ds';
    }
  }

  /** The blocks part of `UsesImportedCons`. */
  lemma ConsBlocks(v: map<NodeId, Info>, v': map<NodeId, Info>, r: map<NodeId, Info>, ds: seq<NodeId>, b: NodeId, name: string)
    requires ds != [] && (forall i | 0 <= i < |ds| :: ds[i] in v) && ds[0] !in ds[1..]
    requires ds[0] in v' && v'[ds[0]] == v[ds[0]].(childIds := [b] + v[ds[0]].childIds)
    requires forall x | x in v && x != ds[0] :: x in v' && v'[x] == v[x]
    requires ds[0] in r && r[ds[0]] == v'[ds[0]]
    requires forall i | 0 <= i < |ds[1..]| :: ds[1..][i] in v' && ds[1..][i] in r && r[ds[1..][i]] == v'[ds[1..][i]].(childIds := [b + 1 + i] + v'[ds[1..][i]].childIds)
    ensures forall i | 0 <= i < |ds| :: ds[i] in r && r[ds[i]] == v[ds[i]].(childIds := [b + i] + v[ds[i]].childIds)
  {
    forall i | 0 <= i < |ds| ensures ds[i] in r && r[ds[i]] == v[ds[i]].(childIds := [b + i] + v[ds[i]].childIds) {
      if i > 0 {
        assert ds[1..][i - 1] == ds[i] && ds[i] != ds[0];
      }
    }
  }

  /** The blocks of the fold are nodes of the tree, the first is no later node's, and the first import leaves the later ones. */
  lemma BlocksStep(t: Xnode, ps: seq<NodeId>, b: NodeId, name: string)
    requires ImportReady(t, ps, b) && ps != []
    ensures var ds := Blocks(View(t), ps);
      var t' := InsertFirstChild(t, ds[0], UseNode(b, name));
      && (forall i | 0 <= i < |ds| :: ds[i] in View(t))
      && ds[0] !in ds[1..]
      && (forall p | p in ps[1..] :: DirectChild(View(t'), p, Declarations).Some?)
      && Blocks(View(t'), ps[1..]) == ds[1..]
  {
    var ds := Blocks(View(t), ps);
    var t' := InsertFirstChild(t, ds[0], UseNode(b, name));
    WithUsesStep(t, ps, b, name);
    forall i | 0 <= i < |ps| ensures ds[i] in View(t) {
      assert ps[i] in ps;
      FirstOfKindSpec(View(t), View(t)[ps[i]].childIds, Declarations);
      NotOwnChild(t, ps[i]);
    }
    forall i | 1 <= i < |ps| ensures ds[i] != ds[0] {
      assert ps[1..][i - 1] == ps[i];
    }
    forall i | 0 <= i < |ps| - 1 ensures Blocks(View(t'), ps[1..])[i] == ds[1..][i] {
      assert ps[1..][i] == ps[i + 1] && ps[i + 1] in ps[1..];
    }
  }

  /**
   * `addUse` once per node of `ps`: one new `USE` per node, first in that
   * node's own declarations block, with no deduplication and no other change;
   * identifiers stay unique.
   */
  lemma {:induction false} WithUsesImports(t: Xnode, ps: seq<NodeId>, b: NodeId, name: string)
    requires ImportReady(t, ps, b)
    ensures UsesImported(View(t), View(WithUses(t, ps, b, name)), Blocks(View(t), ps), b, name)
    ensures Distinct(WithUses(t, ps, b, name)) && FreshFrom(WithUses(t, ps, b, name), b + |ps|)
    decreases |ps|
  {
    if ps != [] {
      var ds := Blocks(View(t), ps);
      var t' := InsertFirstChild(t, ds[0], UseNode(b, name));
      var t1 := WithUses(t, ps, b, name);
      assert ImportReady(t', ps[1..], b + 1) && t1 == WithUses(t', ps[1..], b + 1, name) by {
        WithUsesStep(t, ps, b, name);
      }
      WithUsesImports(t', ps[1..], b + 1, name);
      assert UsesImported(View(t), View(t1), ds, b, name) by {
        WithUsesStep(t, ps, b, name);
        BlocksStep(t, ps, b, name);
        forall x | x in View(t) ensures x < b {
          assert x in IdsOf(t);
        }
        UsesImportedCons(View(t), View(t'), View(t1), ds, b, name);
      }
    }
  }

  /**
   * The imports move no node and add no operator: the operators of `qs` stay
   * ready with the same number of children and the same line, `matchAll`
   * and every ancestor chain are unchanged.
   */
  lemma {:induction false} WithUsesKeeps(t: Xnode, ps: seq<NodeId>, b: NodeId, name: string, qs: seq<NodeId>)
    requires ImportReady(t, ps, b) && Ready(t, qs)
    ensures var t1 := WithUses(t, ps, b, name);
      && Ready(t1, qs) && MatchAll(t1, FPowerExpr) == MatchAll(t, FPowerExpr)
      && (forall q | q in qs ::
            |Find(t1, q).value.children| == |Find(t, q).value.children| && Find(t1, q).value.line == Find(t, q).value.line)
      && (forall y | y in IdsOf(t) :: Ancestors(t1, y) == Ancestors(t, y))
    decreases |ps|
  {
    if ps != [] {
      var d := Block(View(t), ps[0]);
      var u := UseNode(b, name);
      var t' := InsertFirstChild(t, d, u);
      WithUsesStep(t, ps, b, name);
      UseNodeView(b, name);
      assert MatchAll(u, FPowerExpr) == [];
      InsertFirstMatchAll(t, d, u, FPowerExpr);
      forall q | q in qs
        ensures Find(t', q).Some? && Find(t', q).value.kind == FPowerExpr
        ensures MatchAllIn(Find(t', q).value.children, FPowerExpr) == []
        ensures |Find(t', q).value.children| == |Find(t, q).value.children| && Find(t', q).value.line == Find(t, q).value.line
      {
        FindSpec(t, q);
        var op := Find(t, q).value;
        OwnInfo(op);
        assert View(t)[q].kind == FPowerExpr;
        InsertFirstFind(t, d, u, q);
        InsertFirstInMatchAll(op.children, d, u, FPowerExpr);
      }
      forall y | y in IdsOf(t) ensures Ancestors(t', y) == Ancestors(t, y) {
        InsertFirstAncestors(t, d, u, y);
      }
      WithUsesKeeps(t', ps[1..], b + 1, name, qs);
      InsertFirstIds(t, d, u);
    }
  }

  // ---------------------------------------------------------------------
  // The operators queued for replacement

  /** `isInDecl(x)`: node `x` has an ancestor of kind `DECLARATIONS`. */
  function IsInDecl(t: Xnode, x: NodeId): bool
  {
    MatchAncestor(t, x, Declarations).Some?
  }

  /** `isInDecl` holds exactly when some declarations block of the tree holds the node strictly inside it. */
  lemma IsInDeclSpec(t: Xnode, x: NodeId)
    requires Distinct(t)
    ensures IsInDecl(t, x) <==> exists a :: Within(t, x, a) && a in View(t) && View(t)[a].kind == Declarations
  {
    var chain := Ancestors(t, x);
    if x !in IdsOf(t) {
      AncestorsAbsent(t, x);
      forall a | Within(t, x, a) ensures false {
        FindSpec(t, a);
      }
    } else {
      AncestorsSpec(t, x);
      if IsInDecl(t, x) {
        var i :| 0 <= i < |chain| && chain[i].kind == Declarations;
        assert chain[i] in chain;
        assert Within(t, x, chain[i].id);
      }
      forall a | Within(t, x, a) && a in View(t) && View(t)[a].kind == Declarations ensures IsInDecl(t, x) {
        var l :| l in chain && l.id == a;
        var i :| 0 <= i < |chain| && chain[i] == l;
      }
    }
  }

  /** The operators of `ps` that `isInDecl` rejects are kept out; the others are queued in order. */
  function Queued(t: Xnode, ps: seq<NodeId>): seq<NodeId>
  {
    if ps == [] then []
    else Queued(t, ps[..|ps| - 1]) + (if IsInDecl(t, ps[|ps| - 1]) then [] else [ps[|ps| - 1]])
  }

  /** The queue holds, once each, exactly the operators with no declarations block above them. */
  lemma {:induction false} QueuedSpec(t: Xnode, ps: seq<NodeId>)
    ensures forall x :: x in Queued(t, ps) <==> x in ps && !IsInDecl(t, x)
    ensures NoDup(ps) ==> NoDup(Queued(t, ps))
  {
    if ps != [] {
      var n := |ps| - 1;
      QueuedSpec(t, ps[..n]);
      assert ps == ps[..n] + [ps[n]];
      if NoDup(ps) {
        assert NoDup(ps[..n]);
        assert ps[n] !in ps[..n];
      }
    }
  }

  // ---------------------------------------------------------------------
  // The pass

  /**
   * What the pass demands of the program: every `**` node is below the root,
   * has no `**` below it, and has a declarations block among its children
   * (the node `addUse` is given).
   */
  ghost predicate PowsWellFormed(t: Xnode)
  {
    forall p | p in MatchAll(t, FPowerExpr) ::
      p != t.id && Find(t, p).Some? && MatchAllIn(Find(t, p).value.children, FPowerExpr) == [] &&
      DirectChild(View(t), p, Declarations).Some?
  }

  /**
   * The outcome of `transform` on tree `t` with fresh identifiers from `b`:
   * all the imports, then the replacements of the queued operators.
   */
  function Pass(t: Xnode, b: NodeId, moduleName: string, functionName: string, hash: nat): Outcome
  {
    var pows := MatchAll(t, FPowerExpr);
    LowerAll(WithUses(t, pows, b, moduleName), Queued(t, pows), b + |pows|, functionName, hash)
  }

  /** The operators of a well-formed program are ready for both folds. */
  lemma PassReady(t: Xnode, b: NodeId)
    requires Distinct(t) && FreshFrom(t, b) && PowsWellFormed(t)
    ensures ImportReady(t, MatchAll(t, FPowerExpr), b) && Ready(t, MatchAll(t, FPowerExpr))
  {
    var pows := MatchAll(t, FPowerExpr);
    MatchAllSpec(t, FPowerExpr);
    forall p | p in pows ensures p in View(t) && View(t)[p].kind == FPowerExpr && Find(t, p).value.kind == FPowerExpr {
      assert p in OfKind(View(t), FPowerExpr);
      FindSpec(t, p);
      OwnInfo(Find(t, p).value);
    }
  }

  /** A queue drawn from ready operators is ready. */
  lemma ReadySub(t: Xnode, ps: seq<NodeId>, qs: seq<NodeId>)
    requires Ready(t, ps) && NoDup(qs) && forall q | q in qs :: q in ps
    ensures Ready(t, qs)
  {
  }

  /** The imports of a pass: one `USE` of the module per operator, in that operator's own declarations block. */
  lemma PassImports(t: Xnode, b: NodeId, moduleName: string)
    requires Distinct(t) && FreshFrom(t, b) && PowsWellFormed(t)
    ensures var pows := MatchAll(t, FPowerExpr);
      UsesImported(View(t), View(WithUses(t, pows, b, moduleName)), Blocks(View(t), pows), b, moduleName)
  {
    PassReady(t, b);
    WithUsesImports(t, MatchAll(t, FPowerExpr), b, moduleName);
  }

  /**
   * What the replacements of a pass start from: the queued operators are
   * still ready after the imports, with the same number of children.
   */
  lemma PassQueue(t: Xnode, b: NodeId, moduleName: string)
    requires Distinct(t) && FreshFrom(t, b) && PowsWellFormed(t)
    ensures var pows := MatchAll(t, FPowerExpr);
      var queued := Queued(t, pows);
      var t1 := WithUses(t, pows, b, moduleName);
      && Ready(t1, queued) && FreshFrom(t1, b + |pows|)
      && MatchAll(t1, FPowerExpr) == pows
      && (forall q :: q in queued <==> q in pows && !IsInDecl(t, q))
      && (forall q | q in queued :: |Find(t1, q).value.children| == |Find(t, q).value.children|)
  {
    var pows := MatchAll(t, FPowerExpr);
    var queued := Queued(t, pows);
    PassReady(t, b);
    WithUsesImports(t, pows, b, moduleName);
    QueuedSpec(t, pows);
    ReadySub(t, pows, queued);
    WithUsesKeeps(t, pows, b, moduleName, queued);
  }

  /** Every operator of `pows` outside declarations has two children. */
  ghost predicate OutsideDeclsBinary(t: Xnode, pows: seq<NodeId>)
  {
    forall q | q in pows && !IsInDecl(t, q) :: Find(t, q).Some? && |Find(t, q).value.children| == 2
  }

  /**
   * The replacements that follow the imports (`t1`, with the queue `queued`
   * that `PassQueue` describes) succeed exactly when every operator outside
   * declarations had two children before the imports.
   */
  lemma QueueSucceeds(t: Xnode, pows: seq<NodeId>, t1: Xnode, queued: seq<NodeId>, b1: NodeId, functionName: string, hash: nat)
    requires Ready(t1, queued) && FreshFrom(t1, b1)
    requires forall q | q in pows :: Find(t, q).Some?
    requires forall q :: q in queued <==> q in pows && !IsInDecl(t, q)
    requires forall q | q in queued :: |Find(t1, q).value.children| == |Find(t, q).value.children|
    ensures LowerAll(t1, queued, b1, functionName, hash).error.None? <==> OutsideDeclsBinary(t, pows)
  {
    LowerAllSucceeds(t1, queued, b1, functionName, hash);
  }

  /** When those replacements succeed, the operators left are exactly those `isInDecl` kept out of the queue. */
  lemma QueueRemaining(t: Xnode, pows: seq<NodeId>, t1: Xnode, queued: seq<NodeId>, b1: NodeId, functionName: string, hash: nat)
    requires Ready(t1, queued) && FreshFrom(t1, b1) && MatchAll(t1, FPowerExpr) == pows
    requires forall q :: q in queued <==> q in pows && !IsInDecl(t, q)
    ensures var o := LowerAll(t1, queued, b1, functionName, hash);
      o.error.None? ==> forall x :: x in MatchAll(o.tree, FPowerExpr) <==> x in pows && IsInDecl(t, x)
  {
    LowerAllSucceeds(t1, queued, b1, functionName, hash);
  }

  /**
   * The whole pass: it succeeds exactly when every operator outside
   * declarations has two children, and then the operators left are exactly
   * those inside declarations.
   */
  lemma PassOutcome(t: Xnode, b: NodeId, moduleName: string, functionName: string, hash: nat)
    requires Distinct(t) && FreshFrom(t, b) && PowsWellFormed(t)
    ensures var o := Pass(t, b, moduleName, functionName, hash);
      o.error.None? <==> OutsideDeclsBinary(t, MatchAll(t, FPowerExpr))
    ensures var o := Pass(t, b, moduleName, functionName, hash);
      o.error.None? ==> forall x :: x in MatchAll(o.tree, FPowerExpr) <==> x in MatchAll(t, FPowerExpr) && IsInDecl(t, x)
  {
    var pows := MatchAll(t, FPowerExpr);
    var t1 := WithUses(t, pows, b, moduleName);
    var queued := Queued(t, pows);
    var b1 := b + |pows|;
    PassIs(t, b, moduleName, functionName, hash, t1, queued, b1);
    PassOutcomeOf(t, b, moduleName, functionName, hash, pows, t1, queued, b1, Pass(t, b, moduleName, functionName, hash));
  }

  /** `PassOutcome` with the parts of the pass given by name. */
  lemma PassOutcomeOf(t: Xnode, b: NodeId, moduleName: string, functionName: string, hash: nat,
                      pows: seq<NodeId>, t1: Xnode, queued: seq<NodeId>, b1: NodeId, o: Outcome)
    requires Distinct(t) && FreshFrom(t, b) && PowsWellFormed(t)
    requires pows == MatchAll(t, FPowerExpr) && t1 == WithUses(t, pows, b, moduleName) && queued == Queued(t, pows)
    requires b1 == b + |pows| && o == LowerAll(t1, queued, b1, functionName, hash)
    ensures o.error.None? <==> OutsideDeclsBinary(t, pows)
    ensures o.error.None? ==> forall x :: x in MatchAll(o.tree, FPowerExpr) <==> x in pows && IsInDecl(t, x)
  {
    PassQueue(t, b, moduleName);
    QueueOutcome(t, pows, t1, queued, b1, functionName, hash, o);
  }

  /** `QueueSucceeds` and `QueueRemaining` together, for an outcome `o` of the replacements. */
  lemma QueueOutcome(t: Xnode, pows: seq<NodeId>, t1: Xnode, queued: seq<NodeId>, b1: NodeId, functionName: string, hash: nat, o: Outcome)
    requires Ready(t1, queued) && FreshFrom(t1, b1) && MatchAll(t1, FPowerExpr) == pows
    requires forall q | q in pows :: Find(t, q).Some?
    requires forall q :: q in queued <==> q in pows && !IsInDecl(t, q)
    requires forall q | q in queued :: |Find(t1, q).value.children| == |Find(t, q).value.children|
    requires o == LowerAll(t1, queued, b1, functionName, hash)
    ensures o.error.None? <==> OutsideDeclsBinary(t, pows)
    ensures o.error.None? ==> forall x :: x in MatchAll(o.tree, FPowerExpr) <==> x in pows && IsInDecl(t, x)
  {
    QueueSucceeds(t, pows, t1, queued, b1, functionName, hash);
    QueueRemaining(t, pows, t1, queued, b1, functionName, hash);
  }

  /** The declarations block `addUse` finds below a node is one of that node's children. */
  lemma BlockAmongChildren(t: Xnode, q: NodeId)
    requires Distinct(t) && Find(t, q).Some? && DirectChild(View(t), q, Declarations).Some?
    ensures exists i :: 0 <= i < |Find(t, q).value.children| && Find(t, q).value.children[i].kind == Declarations
  {
    var n := Find(t, q).value;
    var d := DirectChild(View(t), q, Declarations).value;
    FindSpec(t, q);
    OwnInfo(n);
    assert View(t)[q].childIds == RootIds(n.children);
    var i :| 0 <= i < |n.children| && n.children[i].id == d;
    FindChild(t, q, i);
    FindSpec(t, d);
    OwnInfo(n.children[i]);
  }

  /**
   * A pass can only succeed on operators one of whose two children is the
   * declarations block the `USE` went into: the block counts as a child, so
   * an operator with two operands as well has three.
   */
  lemma SuccessOnlyDegenerate(t: Xnode, b: NodeId, moduleName: string, functionName: string, hash: nat)
    requires Distinct(t) && FreshFrom(t, b) && PowsWellFormed(t)
    requires Pass(t, b, moduleName, functionName, hash).error.None?
    ensures forall q | q in MatchAll(t, FPowerExpr) && !IsInDecl(t, q) ::
      |Find(t, q).value.children| == 2 &&
      (Find(t, q).value.children[0].kind == Declarations || Find(t, q).value.children[1].kind == Declarations)
  {
    PassOutcome(t, b, moduleName, functionName, hash);
    forall q | q in MatchAll(t, FPowerExpr) && !IsInDecl(t, q)
      ensures |Find(t, q).value.children| == 2
      ensures Find(t, q).value.children[0].kind == Declarations || Find(t, q).value.children[1].kind == Declarations
    {
      BinaryWithBlock(t, q);
    }
  }

  /** An operator with two children, one of them its declarations block. */
  lemma BinaryWithBlock(t: Xnode, q: NodeId)
    requires Distinct(t) && Find(t, q).Some? && DirectChild(View(t), q, Declarations).Some?
    requires |Find(t, q).value.children| == 2
    ensures Find(t, q).value.children[0].kind == Declarations || Find(t, q).value.children[1].kind == Declarations
  {
    BlockAmongChildren(t, q);
  }

  // ---------------------------------------------------------------------
  // The imports as evidently intended: one `USE` per enclosing scope

  /** The scopes `getModule` finds for the operators of `ps`. */
  ghost function PowScopes(t: Xnode, ps: seq<NodeId>): set<NodeId>
  {
    set p | p in ps && GetModule(t, p).Some? :: GetModule(t, p).value
  }

  /**
   * What the corrected pass demands of the program: every `**` node is below
   * the root and has no `**` below it, and the scope `getModule` finds for
   * it, if any, has a declarations block among its children.
   */
  ghost predicate ScopedWellFormed(t: Xnode)
  {
    forall p | p in MatchAll(t, FPowerExpr) ::
      p != t.id && Find(t, p).Some? && MatchAllIn(Find(t, p).value.children, FPowerExpr) == [] &&
      (GetModule(t, p).Some? ==> DirectChild(View(t), GetModule(t, p).value, Declarations).Some?)
  }

  /** `xs` lists, once each, the scopes of the operators of `t`. */
  ghost predicate ListsScopes(t: Xnode, xs: seq<NodeId>)
  {
    NoDup(xs) && forall x :: x in xs <==> x in PowScopes(t, MatchAll(t, FPowerExpr))
  }

  /**
   * The corrected pass: a `USE` of the module in each scope of `xs` (the
   * scopes of the operators, in the set's iteration order), then the same
   * replacements as `Pass`.
   */
  function ScopedPass(t: Xnode, b: NodeId, xs: seq<NodeId>, moduleName: string, functionName: string, hash: nat): Outcome
  {
    var pows := MatchAll(t, FPowerExpr);
    LowerAll(WithUses(t, xs, b, moduleName), Queued(t, pows), b + |xs|, functionName, hash)
  }

  /** The scopes and operators of a program the corrected pass accepts are ready for both folds. */
  lemma ScopedReady(t: Xnode, b: NodeId, xs: seq<NodeId>)
    requires Distinct(t) && FreshFrom(t, b) && ScopedWellFormed(t) && ListsScopes(t, xs)
    ensures ImportReady(t, xs, b) && Ready(t, MatchAll(t, FPowerExpr))
  {
    var pows := MatchAll(t, FPowerExpr);
    MatchAllSpec(t, FPowerExpr);
    forall p | p in pows ensures p in View(t) && View(t)[p].kind == FPowerExpr && Find(t, p).value.kind == FPowerExpr {
      assert p in OfKind(View(t), FPowerExpr);
      FindSpec(t, p);
      OwnInfo(Find(t, p).value);
    }
    forall x | x in xs ensures x in View(t) && View(t)[x].kind != Declarations && DirectChild(View(t), x, Declarations).Some? {
      var p :| p in pows && GetModule(t, p) == Some(x);
      GetModuleEncloses(t, p);
    }
  }

  /**
   * The imports of the corrected pass: one `USE` of the module per scope,
   * however many operators it holds, first in that scope's declarations
   * block, and no other change.
   */
  lemma ScopedImports(t: Xnode, b: NodeId, xs: seq<NodeId>, moduleName: string)
    requires Distinct(t) && FreshFrom(t, b) && ScopedWellFormed(t) && ListsScopes(t, xs)
    ensures forall x | x in xs :: DirectChild(View(t), x, Declarations).Some?
    ensures UsesImported(View(t), View(WithUses(t, xs, b, moduleName)), Blocks(View(t), xs), b, moduleName)
  {
    ScopedReady(t, b, xs);
    WithUsesImports(t, xs, b, moduleName);
  }

  /**
   * The corrected pass succeeds exactly when every operator outside
   * declarations has two children, its two operands, and then the operators
   * left are exactly those inside declarations.
   */
  lemma ScopedOutcome(t: Xnode, b: NodeId, xs: seq<NodeId>, moduleName: string, functionName: string, hash: nat)
    requires Distinct(t) && FreshFrom(t, b) && ScopedWellFormed(t) && ListsScopes(t, xs)
    ensures var o := ScopedPass(t, b, xs, moduleName, functionName, hash);
      o.error.None? <==> OutsideDeclsBinary(t, MatchAll(t, FPowerExpr))
    ensures var o := ScopedPass(t, b, xs, moduleName, functionName, hash);
      o.error.None? ==> forall x :: x in MatchAll(o.tree, FPowerExpr) <==> x in MatchAll(t, FPowerExpr) && IsInDecl(t, x)
  {
    var pows := MatchAll(t, FPowerExpr);
    var b1 := b + |xs|;
    ScopedOutcomeOf(t, b, xs, moduleName, functionName, hash, pows, WithUses(t, xs, b, moduleName), Queued(t, pows), b1,
                    ScopedPass(t, b, xs, moduleName, functionName, hash));
  }

  /** `ScopedOutcome` with the parts of the pass given by name. */
  lemma ScopedOutcomeOf(t: Xnode, b: NodeId, xs: seq<NodeId>, moduleName: string, functionName: string, hash: nat,
                        pows: seq<NodeId>, t1: Xnode, queued: seq<NodeId>, b1: NodeId, o: Outcome)
    requires Distinct(t) && FreshFrom(t, b) && ScopedWellFormed(t) && ListsScopes(t, xs)
    requires pows == MatchAll(t, FPowerExpr) && t1 == WithUses(t, xs, b, moduleName) && queued == Queued(t, pows)
    requires b1 == b + |xs| && o == LowerAll(t1, queued, b1, functionName, hash)
    ensures o.error.None? <==> OutsideDeclsBinary(t, pows)
    ensures o.error.None? ==> forall x :: x in MatchAll(o.tree, FPowerExpr) <==> x in pows && IsInDecl(t, x)
  {
    ScopedReady(t, b, xs);
    WithUsesImports(t, xs, b, moduleName);
    QueuedSpec(t, pows);
    ReadySub(t, pows, queued);
    WithUsesKeeps(t, xs, b, moduleName, queued);
    QueueOutcome(t, pows, t1, queued, b1, functionName, hash, o);
  }

  /** The operator `x ** 2`, whose two children are its operands. */
  function Square(): Xnode
  {
    Xnode(4, FPowerExpr, "", BasicType("Freal"), "", 3, [
      Xnode(5, Other("Var"), "", BasicType("Freal"), "x", 3, []),
      Xnode(6, Other("FintConstant"), "", BasicType("Fint"), "2", 3, [])])
  }

  /** A program with the statement `y = x ** 2`; the declarations block belongs to the program. */
  function SquareProgram(): Xnode
  {
    Xnode(0, FFunctionDefinition, "p", NoType, "", 1, [
      Xnode(1, Declarations, "", NoType, "", 2, []),
      Xnode(2, Other("FassignStatement"), "", NoType, "", 3, [
        Xnode(3, Other("Var"), "", BasicType("Freal"), "y", 3, []),
        Square()])])
  }

  /**
   * `addUse(fPow, …)` on a `**` with two operands finds no declarations
   * block below the operator (a null dereference in the source), so a
   * program with such an operator does not meet `PowsWellFormed`.
   */
  lemma RealOperatorRejected()
    ensures MatchAll(SquareProgram(), FPowerExpr) == [4]
    ensures DirectChild(View(SquareProgram()), 4, Declarations).None? && !PowsWellFormed(SquareProgram())
  {
    SquareProgramView();
  }

  /**
   * The corrected pass on the same program: the `USE` goes into the
   * program's declarations block, and the operator is replaced.
   */
  lemma RealOperatorLowered()
    ensures ScopedWellFormed(SquareProgram()) && ListsScopes(SquareProgram(), [0])
    ensures var o := ScopedPass(SquareProgram(), 7, [0], "pow_module", "pow", 0);
      && o.error.None?
      && MatchAll(o.tree, FPowerExpr) == []
      && o.tree.children != [] && o.tree.children[0] == Xnode(1, Declarations, "", NoType, "", 2, [UseNode(7, "pow_module")])
  {
    SquareLoweredWithoutError();
    SquarePows();
    SquareScope();
    NoneLeft(ScopedPass(SquareProgram(), 7, [0], "pow_module", "pow", 0).tree, SquareProgram(), 4);
    SquareUseKept();
  }

  /** The corrected pass on `SquareProgram` succeeds and leaves only the operators inside declarations. */
  lemma SquareLoweredWithoutError()
    ensures ScopedWellFormed(SquareProgram()) && ListsScopes(SquareProgram(), [0])
    ensures var o := ScopedPass(SquareProgram(), 7, [0], "pow_module", "pow", 0);
      && o.error.None?
      && forall x :: x in MatchAll(o.tree, FPowerExpr) <==> x in MatchAll(SquareProgram(), FPowerExpr) && IsInDecl(SquareProgram(), x)
  {
    var t := SquareProgram();
    SquareProgramView();
    SquareScoped();
    assert OutsideDeclsBinary(t, [4]) by {
      SquareScope();
      SquareFound();
    }
    ScopedOutcome(t, 7, [0], "pow_module", "pow", 0);
  }

  /** When the one operator of `t` is outside declarations, a tree keeping only the operators of `t` inside declarations has none. */
  lemma NoneLeft(r: Xnode, t: Xnode, q: NodeId)
    requires MatchAll(t, FPowerExpr) == [q] && !IsInDecl(t, q)
    requires forall x :: x in MatchAll(r, FPowerExpr) <==> x in MatchAll(t, FPowerExpr) && IsInDecl(t, x)
    ensures MatchAll(r, FPowerExpr) == []
  {
    NoneListed(MatchAll(r, FPowerExpr));
  }

  /** A list with no member is empty. */
  lemma NoneListed(s: seq<NodeId>)
    requires forall x :: x !in s
    ensures s == []
  {
    if s != [] {
      HeadListed(s);
    }
  }

  /** The first element of a non-empty list is a member of it. */
  lemma HeadListed(s: seq<NodeId>)
    requires s != []
    ensures s[0] in s
  {
  }

  /** `SquareProgram` after the corrected imports: a `USE` of the module first in its declarations block. */
  function SquareImported(): Xnode
  {
    var t := SquareProgram();
    t.(children := [t.children[0].(children := [UseNode(7, "pow_module")]), t.children[1]])
  }

  /** The corrected imports on `SquareProgram` give `SquareImported`. */
  lemma SquareImports()
    ensures WithUses(SquareProgram(), [0], 7, "pow_module") == SquareImported()
  {
    var t := SquareProgram();
    SquareBlock();
    OneImport(t, 0, 1, 7, "pow_module");
    SquareStatementIds();
    InsertIntoFirstChild(t, UseNode(7, "pow_module"));
  }

  /** Importing into one scope is one `addUse`. */
  lemma OneImport(t: Xnode, s: NodeId, d: NodeId, b: NodeId, moduleName: string)
    requires DirectChild(View(t), s, Declarations) == Some(d)
    ensures WithUses(t, [s], b, moduleName) == InsertFirstChild(t, d, UseNode(b, moduleName))
  {
    assert [s][1..] == [];
  }

  /** Inserting first into the first of two children of the root, an empty one whose identifier the other does not hold. */
  lemma InsertIntoFirstChild(t: Xnode, n: Xnode)
    requires |t.children| == 2 && t.children[0].children == []
    requires t.id != t.children[0].id && t.children[0].id !in IdsOf(t.children[1])
    ensures InsertFirstChild(t, t.children[0].id, n) == t.(children := [t.children[0].(children := [n]), t.children[1]])
  {
    var c0, c1, d := t.children[0], t.children[1], t.children[0].id;
    InsertFirstAbsent(c1, d, n);
    assert InsertFirstIn(c0.children, d, n) == [];
    assert InsertFirstChild(c0, d, n) == c0.(children := [n]);
    var rest := t.children[1..];
    assert rest == [c1] && rest[1..] == [];
    assert InsertFirstIn(rest, d, n) == [c1];
    assert InsertFirstIn(t.children, d, n) == [InsertFirstChild(c0, d, n)] + InsertFirstIn(rest, d, n);
  }

  /** The corrected pass on `SquareProgram` is the replacement of its one operator in `SquareImported`. */
  lemma SquareLowering()
    ensures ScopedPass(SquareProgram(), 7, [0], "pow_module", "pow", 0) == LowerAll(SquareImported(), [4], 8, "pow", 0)
  {
    var t := SquareProgram();
    SquarePows();
    SquareScope();
    assert Queued(t, [4]) == [4];
    SquareImports();
  }

  /** The replacement of the operator of `SquareImported` leaves its declarations block as it is. */
  lemma SquareUseKept()
    ensures var r := ScopedPass(SquareProgram(), 7, [0], "pow_module", "pow", 0).tree;
      r.children != [] && r.children[0] == SquareImported().children[0]
  {
    SquareLowering();
    BlockKept(SquareImported(), 4, 8, "pow", 0, 7, "pow_module");
  }

  /** A `USE` node alone has its own identifier and no other. */
  lemma UseIds(id: NodeId, name: string)
    ensures IdsIn([UseNode(id, name)]) == {id}
  {
    UseNodeView(id, name);
    assert ViewIn([UseNode(id, name)]) == View(UseNode(id, name)) + ViewIn([]);
  }

  /** Replacing an operator leaves a first child of the root that is a block holding one other `USE` as it is. */
  lemma BlockKept(t: Xnode, q: NodeId, b: NodeId, name: string, hash: nat, u: NodeId, moduleName: string)
    requires t.children != [] && t.children[0] == Xnode(1, Declarations, "", NoType, "", 2, [UseNode(u, moduleName)])
    requires q != 1 && q != u
    ensures var r := LowerAll(t, [q], b, name, hash).tree;
      r.children != [] && r.children[0] == t.children[0]
  {
    UseIds(u, moduleName);
    FirstChildKept(t, q, b, name, hash);
  }

  /** Replacing one operator that is not in the first child of the root leaves that child as it is. */
  lemma FirstChildKept(t: Xnode, q: NodeId, b: NodeId, name: string, hash: nat)
    requires t.children != [] && t.children[0].id != q && q !in IdsIn(t.children[0].children)
    ensures var r := LowerAll(t, [q], b, name, hash).tree;
      r.children != [] && r.children[0] == t.children[0]
  {
    var o := LowerOne(t, q, b, name, hash);
    assert LowerAll(t, [q], b, name, hash).tree == o.tree;
    match Find(t, q)
    case None =>
    case Some(op) =>
      if |op.children| == 2 {
        var e := ReplaceBy(CallFor(op, b, name, hash));
        SpliceAbsent(t.children[0], q, e);
        assert SpliceIn(t.children, q, e)[0] == Splice(t.children[0], q, e);
      }
  }

  /** `SquareProgram` meets what the corrected pass demands, with the program as the one scope. */
  lemma SquareScoped()
    ensures ScopedWellFormed(SquareProgram()) && ListsScopes(SquareProgram(), [0])
  {
    SquareProgramView();
    SquareScope();
    SquareFound();
    OneOperatorScoped(SquareProgram(), 4, 0);
  }

  /** A program with a single operator meets what the corrected pass demands when that operator's scope has a declarations block. */
  lemma OneOperatorScoped(t: Xnode, q: NodeId, s: NodeId)
    requires MatchAll(t, FPowerExpr) == [q] && q != t.id && Find(t, q).Some?
    requires MatchAllIn(Find(t, q).value.children, FPowerExpr) == []
    requires GetModule(t, q) == Some(s) && DirectChild(View(t), s, Declarations).Some?
    ensures ScopedWellFormed(t) && ListsScopes(t, [s])
  {
    assert PowScopes(t, [q]) == {s};
  }

  /** The identifiers of the operator, each once. */
  lemma SquareIds()
    ensures Distinct(Square()) && IdsOf(Square()) == {4, 5, 6}
  {
    assert IdsOf(Square().children[0]) == {5} && IdsOf(Square().children[1]) == {6};
    TwoChildrenIds(Square());
  }

  /** The identifiers of `SquareProgram`, each once. */
  lemma SquareProgramIds()
    ensures Distinct(SquareProgram()) && IdsOf(SquareProgram()) == {0, 1, 2, 3, 4, 5, 6}
  {
    var t := SquareProgram();
    SquareStatementIds();
    assert IdsOf(t.children[0]) == {1};
    TwoChildrenIds(t);
  }

  /** The identifiers of the assignment of `SquareProgram`, each once. */
  lemma SquareStatementIds()
    ensures Distinct(SquareProgram().children[1]) && IdsOf(SquareProgram().children[1]) == {2, 3, 4, 5, 6}
  {
    var stmt := SquareProgram().children[1];
    SquareIds();
    assert IdsOf(stmt.children[0]) == {3};
    TwoChildrenIds(stmt);
  }

  /** A node found in a tree is recorded in its view as it is. */
  lemma FoundInView(t: Xnode, x: NodeId, n: Xnode)
    requires Distinct(t) && Find(t, x) == Some(n)
    ensures x in View(t) && View(t)[x] == InfoOf(n)
  {
    FindSpec(t, x);
    OwnInfo(n);
  }

  /** The view of `SquareProgram`: its one operator, and where the declarations blocks are. */
  lemma SquareProgramView()
    ensures var t := SquareProgram();
      && Distinct(t) && MatchAll(t, FPowerExpr) == [4] && FreshFrom(t, 7)
      && DirectChild(View(t), 4, Declarations).None? && DirectChild(View(t), 0, Declarations) == Some(1)
  {
    SquarePows();
    SquareFresh();
    SquareOperands();
    SquareBlock();
  }

  /** The one operator of `SquareProgram`. */
  lemma SquarePows()
    ensures MatchAll(SquareProgram(), FPowerExpr) == [4]
  {
    var t := SquareProgram();
    assert MatchAllIn(Square().children, FPowerExpr) == [];
    assert MatchAll(Square(), FPowerExpr) == [4];
    assert MatchAll(t.children[1], FPowerExpr) == [4];
    assert MatchAll(t.children[0], FPowerExpr) == [];
  }

  /** Every identifier of `SquareProgram` is below 7. */
  lemma SquareFresh()
    ensures FreshFrom(SquareProgram(), 7)
  {
    SquareProgramIds();
    var ids := IdsOf(SquareProgram());
    assert forall x | x in ids :: x < 7;
  }

  /** Neither child of the operator of `SquareProgram` is a declarations block. */
  lemma SquareOperands()
    ensures Distinct(SquareProgram()) && DirectChild(View(SquareProgram()), 4, Declarations).None?
  {
    SquareProgramIds();
    SquareFound();
    NoBlockChild(SquareProgram(), 4);
  }

  /** A node none of whose children is a declarations block has no direct declarations block. */
  lemma NoBlockChild(t: Xnode, q: NodeId)
    requires Distinct(t) && Find(t, q).Some?
    requires forall i | 0 <= i < |Find(t, q).value.children| :: Find(t, q).value.children[i].kind != Declarations
    ensures DirectChild(View(t), q, Declarations).None?
  {
    if DirectChild(View(t), q, Declarations).Some? {
      BlockAmongChildren(t, q);
    }
  }

  /** The declarations block of `SquareProgram` is the program's first child. */
  lemma SquareBlock()
    ensures Distinct(SquareProgram()) && DirectChild(View(SquareProgram()), 0, Declarations) == Some(1)
  {
    var t := SquareProgram();
    SquareProgramIds();
    assert Find(t, 1) == Some(t.children[0]);
    FoundInView(t, 1, t.children[0]);
    FoundInView(t, 0, t);
    assert View(t)[0].childIds == [1, 2];
  }

  /** The operator of `SquareProgram` lies in the program and in no declarations block. */
  lemma SquareScope()
    ensures GetModule(SquareProgram(), 4) == Some(0) && !IsInDecl(SquareProgram(), 4)
  {
    var t := SquareProgram();
    var chain := [Link(0, FFunctionDefinition), Link(2, Other("FassignStatement"))];
    assert Ancestors(t, 4) == chain;
    assert chain[..1] == [chain[0]];
    assert NearestOfKind([chain[0]], FFunctionDefinition) == Some(0);
  }

  /** The operator of `SquareProgram` is found with its two operands, and no operator below it. */
  lemma SquareFound()
    ensures Find(SquareProgram(), 4) == Some(Square())
    ensures |Square().children| == 2 && MatchAllIn(Square().children, FPowerExpr) == []
  {
  }

  // ---------------------------------------------------------------------
  // The loops of `transform`, one step at a time

  /** After `i` turns of the import loop: tree `t` still leads to the imports of the whole pass, and `kill` is the queue so far. */
  ghost predicate ImportsSoFar(t0: Xnode, b0: NodeId, ps: seq<NodeId>, name: string, t: Xnode, i: nat, kill: seq<NodeId>)
  {
    TreeSoFar(t0, b0, ps, name, t, i) && kill == Queued(t0, ps[..i])
  }

  /** The part of `ImportsSoFar` about the tree: the rest of the loop leads to the same imports, and no ancestry changed. */
  ghost predicate TreeSoFar(t0: Xnode, b0: NodeId, ps: seq<NodeId>, name: string, t: Xnode, i: nat)
  {
    i <= |ps| && FreshFrom(t0, b0) && (forall p | p in ps :: p in IdsOf(t0)) && ImportReady(t, ps[i..], b0 + i) &&
    WithUses(t, ps[i..], b0 + i, name) == WithUses(t0, ps, b0, name) &&
    (forall y | y in IdsOf(t0) :: Ancestors(t, y) == Ancestors(t0, y))
  }

  lemma ImportsStart(t0: Xnode, b0: NodeId, name: string)
    requires Distinct(t0) && FreshFrom(t0, b0) && PowsWellFormed(t0)
    ensures ImportsSoFar(t0, b0, MatchAll(t0, FPowerExpr), name, t0, 0, [])
  {
    var ps := MatchAll(t0, FPowerExpr);
    PassReady(t0, b0);
    assert ps[0..] == ps;
    forall p | p in ps ensures p in IdsOf(t0) {
      assert p in View(t0);
    }
  }

  /** The operator the import loop is at has a declarations block. */
  lemma ImportsAt(t0: Xnode, b0: NodeId, ps: seq<NodeId>, name: string, t: Xnode, i: nat, kill: seq<NodeId>)
    requires ImportsSoFar(t0, b0, ps, name, t, i, kill) && i < |ps|
    ensures DirectChild(View(t), ps[i], Declarations).Some?
  {
    assert ps[i] in ps[i..];
  }

  lemma ImportsStep(t0: Xnode, b0: NodeId, ps: seq<NodeId>, name: string, t: Xnode, i: nat, kill: seq<NodeId>, d: NodeId, u: Xnode, t': Xnode, kill': seq<NodeId>)
    requires ImportsSoFar(t0, b0, ps, name, t, i, kill) && i < |ps|
    requires DirectChild(View(t), ps[i], Declarations) == Some(d)
    requires u == UseNode(b0 + i, name) && t' == InsertFirstChild(t, d, u)
    requires IsInDecl(t', ps[i]) ==> kill' == kill
    requires !IsInDecl(t', ps[i]) ==> kill' == kill + [ps[i]]
    ensures ImportsSoFar(t0, b0, ps, name, t', i + 1, kill')
  {
    TreeStep(t0, b0, ps, name, t, i, d, u, t');
    assert ps[i] in ps;
    ImportsQueue(t0, ps, i, kill, t', kill');
  }

  lemma TreeStep(t0: Xnode, b0: NodeId, ps: seq<NodeId>, name: string, t: Xnode, i: nat, d: NodeId, u: Xnode, t': Xnode)
    requires TreeSoFar(t0, b0, ps, name, t, i) && i < |ps|
    requires DirectChild(View(t), ps[i], Declarations) == Some(d)
    requires u == UseNode(b0 + i, name) && t' == InsertFirstChild(t, d, u)
    ensures TreeSoFar(t0, b0, ps, name, t', i + 1)
  {
    ImportsTree(t, ps[i..], b0 + i, name, d, t');
    assert ps[i..][1..] == ps[i + 1..];
    ImportsAncestors(t0, b0 + i, t, d, u, name);
  }

  /** The first `addUse` of the remaining ones leaves a tree ready for the rest, with the same outcome. */
  lemma ImportsTree(t: Xnode, ps: seq<NodeId>, b: NodeId, name: string, d: NodeId, t': Xnode)
    requires ImportReady(t, ps, b) && ps != []
    requires DirectChild(View(t), ps[0], Declarations) == Some(d)
    requires t' == InsertFirstChild(t, d, UseNode(b, name))
    ensures ImportReady(t', ps[1..], b + 1)
    ensures WithUses(t', ps[1..], b + 1, name) == WithUses(t, ps, b, name)
  {
    WithUsesStep(t, ps, b, name);
  }

  /** A `USE` with a fresh identifier leaves the ancestors of every node of the original tree as they were. */
  lemma ImportsAncestors(t0: Xnode, b: NodeId, t: Xnode, d: NodeId, u: Xnode, name: string)
    requires FreshFrom(t0, b) && u == UseNode(b, name)
    requires forall y | y in IdsOf(t0) :: Ancestors(t, y) == Ancestors(t0, y)
    ensures forall y | y in IdsOf(t0) :: Ancestors(InsertFirstChild(t, d, u), y) == Ancestors(t0, y)
  {
    UseNodeView(b, name);
    forall y | y in IdsOf(t0) ensures Ancestors(InsertFirstChild(t, d, u), y) == Ancestors(t0, y) {
      assert y < b && y !in View(u);
      InsertFirstAncestors(t, d, u, y);
    }
  }

  /** `isInDecl` asked of the current tree queues the operator just as it would on the original one. */
  lemma ImportsQueue(t0: Xnode, ps: seq<NodeId>, i: nat, kill: seq<NodeId>, t': Xnode, kill': seq<NodeId>)
    requires i < |ps| && kill == Queued(t0, ps[..i]) && Ancestors(t', ps[i]) == Ancestors(t0, ps[i])
    requires IsInDecl(t', ps[i]) ==> kill' == kill
    requires !IsInDecl(t', ps[i]) ==> kill' == kill + [ps[i]]
    ensures kill' == Queued(t0, ps[..i + 1])
  {
    assert ps[..i + 1][..i] == ps[..i];
    assert IsInDecl(t', ps[i]) == IsInDecl(t0, ps[i]);
  }

  lemma ImportsEnd(t0: Xnode, b0: NodeId, ps: seq<NodeId>, name: string, t: Xnode, kill: seq<NodeId>)
    requires ImportsSoFar(t0, b0, ps, name, t, |ps|, kill)
    ensures t == WithUses(t0, ps, b0, name) && kill == Queued(t0, ps)
  {
    assert ps[|ps|..] == [] && ps[..|ps|] == ps;
  }

  /** After `j` turns of the replacement loop: tree `t` and counter `b` still lead to the outcome of the whole queue. */
  ghost predicate LoweringSoFar(t1: Xnode, b1: NodeId, qs: seq<NodeId>, name: string, hash: nat, t: Xnode, b: NodeId, j: nat)
  {
    j <= |qs| && Ready(t, qs[j..]) && FreshFrom(t, b) &&
    LowerAll(t, qs[j..], b, name, hash) == LowerAll(t1, qs, b1, name, hash)
  }

  lemma LoweringStart(t1: Xnode, b1: NodeId, qs: seq<NodeId>, name: string, hash: nat)
    requires Ready(t1, qs) && FreshFrom(t1, b1)
    ensures LoweringSoFar(t1, b1, qs, name, hash, t1, b1, 0)
  {
    assert qs[0..] == qs;
  }

  /** The operator the loop is at is in the tree, below its root. */
  lemma LoweringAt(t1: Xnode, b1: NodeId, qs: seq<NodeId>, name: string, hash: nat, t: Xnode, b: NodeId, j: nat)
    requires LoweringSoFar(t1, b1, qs, name, hash, t, b, j) && j < |qs|
    ensures qs[j] in IdsOf(t) && qs[j] != t.id && Find(t, qs[j]).Some?
  {
    assert qs[j] in qs[j..];
    FindSpec(t, qs[j]);
  }

  /** An operator without two children ends the loop with the outcome of the whole queue. */
  lemma LoweringStops(t1: Xnode, b1: NodeId, qs: seq<NodeId>, name: string, hash: nat, t: Xnode, b: NodeId, j: nat)
    requires LoweringSoFar(t1, b1, qs, name, hash, t, b, j) && j < |qs|
    requires Find(t, qs[j]).Some? && |Find(t, qs[j]).value.children| != 2
    ensures var op := Find(t, qs[j]).value;
      LowerAll(t1, qs, b1, name, hash) == Outcome(t, b, Some(ArityError(|op.children|, op.line)))
  {
    assert qs[j..][0] == qs[j];
  }

  /** After the call is inserted, the operator the loop is at is still in the tree, below its root. */
  lemma LoweringInserted(t1: Xnode, b1: NodeId, qs: seq<NodeId>, name: string, hash: nat, t: Xnode, b: NodeId, j: nat,
                         op: Xnode, call: Xnode, t': Xnode)
    requires LoweringSoFar(t1, b1, qs, name, hash, t, b, j) && j < |qs|
    requires Find(t, qs[j]) == Some(op) && |op.children| == 2
    requires call == CallFor(op, b, name, hash) && t' == Splice(t, qs[j], InsertAfter(call))
    ensures qs[j] in IdsOf(t') && qs[j] != t'.id
  {
    LoweringAt(t1, b1, qs, name, hash, t, b, j);
    CallForFresh(op, b, name, hash, t);
    InsertAfterIds(t, qs[j], call);
  }

  /** Inserting the call after an operator and deleting the operator is one step of the queue. */
  lemma LoweringStep(t1: Xnode, b1: NodeId, qs: seq<NodeId>, name: string, hash: nat, t: Xnode, b: NodeId, j: nat,
                      op: Xnode, call: Xnode, t': Xnode, t'': Xnode, b'': NodeId)
    requires LoweringSoFar(t1, b1, qs, name, hash, t, b, j) && j < |qs|
    requires Find(t, qs[j]) == Some(op) && |op.children| == 2
    requires call == CallFor(op, b, name, hash) && t' == Splice(t, qs[j], InsertAfter(call))
    requires t'' == Splice(t', qs[j], Delete) && b'' == b + CallSize(op)
    ensures LoweringSoFar(t1, b1, qs, name, hash, t'', b'', j + 1)
  {
    var q := qs[j];
    LoweringAt(t1, b1, qs, name, hash, t, b, j);
    CallForFresh(op, b, name, hash, t);
    assert q !in IdsOf(call) by {
      assert q < b;
    }
    ReplaceThenDelete(t, q, call);
    assert qs[j..][0] == q;
    LowerOneStep(t, qs[j..], b, name, hash);
    assert qs[j..][1..] == qs[j + 1..];
  }

  lemma LoweringEnd(t1: Xnode, b1: NodeId, qs: seq<NodeId>, name: string, hash: nat, t: Xnode, b: NodeId)
    requires LoweringSoFar(t1, b1, qs, name, hash, t, b, |qs|)
    ensures LowerAll(t1, qs, b1, name, hash) == Outcome(t, b, None)
  {
    assert qs[|qs|..] == [];
  }

  // ---------------------------------------------------------------------
  // The loops of the corrected `transform`

  /** Adding one operator adds its scope, if it has one. */
  lemma PowScopesSnoc(t: Xnode, ps: seq<NodeId>, p: NodeId)
    ensures PowScopes(t, ps + [p]) == PowScopes(t, ps) + if GetModule(t, p).Some? then {GetModule(t, p).value} else {}
  {
  }

  /** The first loop of the corrected `transform`: the scopes of the operators, and the queue of those not inside declarations. */
  method CollectScopes(t: Xnode, fPowers: seq<NodeId>) returns (modModules: set<NodeId>, fPowersToKill: seq<NodeId>)
    ensures modModules == PowScopes(t, fPowers) && fPowersToKill == Queued(t, fPowers)
  {
    modModules, fPowersToKill := {}, [];
    for i := 0 to |fPowers|
      invariant modModules == PowScopes(t, fPowers[..i]) && fPowersToKill == Queued(t, fPowers[..i])
    {
      var fPow := fPowers[i];
      var scope := GetModule(t, fPow);
      if scope.Some? {
        modModules := modModules + {scope.value};
      }
      if !IsInDecl(t, fPow) {
        fPowersToKill := fPowersToKill + [fPow];
      }
      assert fPowers[..i + 1] == fPowers[..i] + [fPow] && fPowers[..i + 1][..i] == fPowers[..i];
      PowScopesSnoc(t, fPowers[..i], fPow);
    }
    assert fPowers[..|fPowers|] == fPowers;
  }

  /** Before the `USE`s of the corrected pass: its scopes are ready for the import loop. */
  lemma ScopesStart(t0: Xnode, b0: NodeId, xs: seq<NodeId>, name: string)
    requires Distinct(t0) && FreshFrom(t0, b0) && ScopedWellFormed(t0) && ListsScopes(t0, xs)
    ensures TreeSoFar(t0, b0, xs, name, t0, 0)
  {
    ScopedReady(t0, b0, xs);
    assert xs[0..] == xs;
    forall x | x in xs ensures x in IdsOf(t0) {
      assert x in View(t0);
    }
  }

  /** The scope the import loop is at has a declarations block. */
  lemma ScopesAt(t0: Xnode, b0: NodeId, xs: seq<NodeId>, name: string, t: Xnode, i: nat)
    requires TreeSoFar(t0, b0, xs, name, t, i) && i < |xs|
    ensures DirectChild(View(t), xs[i], Declarations).Some?
  {
    assert xs[i] in xs[i..];
  }

  lemma ScopesEnd(t0: Xnode, b0: NodeId, xs: seq<NodeId>, name: string, t: Xnode)
    requires TreeSoFar(t0, b0, xs, name, t, |xs|)
    ensures t == WithUses(t0, xs, b0, name)
  {
    assert xs[|xs|..] == [];
  }

  /** After the `USE`s of the corrected pass, the queued operators are ready for the replacement loop. */
  lemma ScopedQueue(t: Xnode, b: NodeId, xs: seq<NodeId>, name: string, t1: Xnode, kill: seq<NodeId>, b1: NodeId)
    requires Distinct(t) && FreshFrom(t, b) && ScopedWellFormed(t) && ListsScopes(t, xs)
    requires t1 == WithUses(t, xs, b, name) && kill == Queued(t, MatchAll(t, FPowerExpr)) && b1 == b + |xs|
    ensures Ready(t1, kill) && FreshFrom(t1, b1)
  {
    var pows := MatchAll(t, FPowerExpr);
    ScopedReady(t, b, xs);
    WithUsesImports(t, xs, b, name);
    QueuedSpec(t, pows);
    ReadySub(t, pows, kill);
    WithUsesKeeps(t, xs, b, name, kill);
  }

  /** `ScopedPass` is the replacement fold started from the `USE`s and the queue. */
  lemma ScopedPassIs(t0: Xnode, b0: NodeId, xs: seq<NodeId>, moduleName: string, functionName: string, hash: nat,
                     t1: Xnode, kill: seq<NodeId>, b1: NodeId)
    requires t1 == WithUses(t0, xs, b0, moduleName) && kill == Queued(t0, MatchAll(t0, FPowerExpr)) && b1 == b0 + |xs|
    ensures ScopedPass(t0, b0, xs, moduleName, functionName, hash) == LowerAll(t1, kill, b1, functionName, hash)
  {
  }

  /** `Pass` is the replacement fold started from the imports and the queue. */
  lemma PassIs(t0: Xnode, b0: NodeId, moduleName: string, functionName: string, hash: nat, t1: Xnode, kill: seq<NodeId>, b1: NodeId)
    requires t1 == WithUses(t0, MatchAll(t0, FPowerExpr), b0, moduleName) && kill == Queued(t0, MatchAll(t0, FPowerExpr))
    requires b1 == b0 + |MatchAll(t0, FPowerExpr)|
    ensures Pass(t0, b0, moduleName, functionName, hash) == LowerAll(t1, kill, b1, functionName, hash)
  {
  }

  /** Both operands of a binary operator are nodes of the tree. */
  lemma OperandsFound(t: Xnode, x: NodeId)
    requires Distinct(t) && Find(t, x).Some? && |Find(t, x).value.children| == 2
    ensures var op := Find(t, x).value;
      && Find(t, op.children[0].id) == Some(op.children[0]) && op.children[0].id in IdsOf(t)
      && Find(t, op.children[1].id) == Some(op.children[1]) && op.children[1].id in IdsOf(t)
  {
    var op := Find(t, x).value;
    FindChild(t, x, 0);
    FindChild(t, x, 1);
    FindSpec(t, op.children[0].id);
    FindSpec(t, op.children[1].id);
  }

  /**
   * The call `replaceExponentiation` assembles, from the clones of the two
   * operands taken one after the other, is `CallFor`, and it is made of fresh
   * identifiers only.
   */
  lemma CallAssembled(t: Xnode, x: NodeId, b: NodeId, name: string, hash: nat,
                      a0: Xnode, b1: NodeId, a1: Xnode, b2: NodeId, call: Xnode)
    requires Distinct(t) && FreshFrom(t, b) && Find(t, x).Some? && |Find(t, x).value.children| == 2
    requires var op := Find(t, x).value;
      && Find(t, op.children[0].id) == Some(op.children[0]) && Find(t, op.children[1].id) == Some(op.children[1])
      && a0 == Clone(Find(t, op.children[0].id).value, b + 3) && b1 == b + 3 + Size(Find(t, op.children[0].id).value)
      && a1 == Clone(Find(t, op.children[1].id).value, b1) && b2 == b1 + Size(Find(t, op.children[1].id).value)
    requires call == AppendChild(AppendChild(FctCall(b, TypeFReal, name, hash), b + 2, a0), b + 2, a1)
    ensures call == CallFor(Find(t, x).value, b, name, hash) && b2 == b + CallSize(Find(t, x).value)
    ensures Distinct(call) && forall y | y in IdsOf(call) :: y !in IdsOf(t) && y < b2
  {
    var op := Find(t, x).value;
    CallForBuilt(op, b, name, hash);
    CallForFresh(op, b, name, hash, t);
  }

  /** The identifiers of the call built for operator `op`, numbered from `b`, are all fresh. */
  lemma CallForFresh(op: Xnode, b: NodeId, name: string, hash: nat, t: Xnode)
    requires |op.children| == 2 && FreshFrom(t, b)
    ensures forall x | x in IdsOf(CallFor(op, b, name, hash)) :: x !in IdsOf(t) && x < b + CallSize(op)
    ensures Distinct(CallFor(op, b, name, hash))
  {
    CallForIds(op, b, name, hash);
  }

  /** `replaceExponentiation` builds `CallFor`: the two clones appended in turn to the new call's argument list. */
  lemma CallForBuilt(op: Xnode, b: NodeId, name: string, hash: nat)
    requires |op.children| == 2
    ensures AppendChild(AppendChild(FctCall(b, TypeFReal, name, hash), b + 2, Clone(op.children[0], b + 3)),
                        b + 2, Clone(op.children[1], b + 3 + Size(op.children[0]))) == CallFor(op, b, name, hash)
  {
    CloneIds(op.children[0], b + 3);
    BuildPowCall(b, name, hash, Clone(op.children[0], b + 3), Clone(op.children[1], b + 3 + Size(op.children[0])));
  }

  /** The `**` lowering pass, configured with the power module's and the power function's names. */
  class ReplacePow {
    const usageModuleName: string
    const powFunctionName: string

    /** The two names come from the configuration parameters `br_power_module_name` and `br_power_function_name`. */
    constructor(usageModuleName: string, powFunctionName: string)
      ensures this.usageModuleName == usageModuleName && this.powFunctionName == powFunctionName
    {
      this.usageModuleName := usageModuleName;
      this.powFunctionName := powFunctionName;
    }

    /** `addDummyFctType`: a new function type returning `REAL`, added to the type table. */
    method AddDummyFctType(xcodeml: XcodeProgram) returns (fctType: FunctionType)
      requires xcodeml.Valid()
      modifies xcodeml
      ensures xcodeml.Valid()
      ensures fctType == FunctionType(old(xcodeml.nextHash), TypeFReal)
      ensures forall i | 0 <= i < |old(xcodeml.typeTable)| :: old(xcodeml.typeTable)[i].hash != fctType.hash
      ensures xcodeml.typeTable == old(xcodeml.typeTable) + [fctType] && xcodeml.nextHash == old(xcodeml.nextHash) + 1
      ensures xcodeml.root == old(xcodeml.root) && xcodeml.nextId == old(xcodeml.nextId)
    {
      fctType := xcodeml.CreateFunctionType(TypeFReal);
      xcodeml.AddType(fctType);
    }

    /**
     * `replaceExponentiation(fPow)`: an operator without exactly two children
     * raises the arity error with its line and changes nothing; otherwise the
     * call of the power function on copies of child 0 and child 1 is inserted
     * right after the operator.
     */
    method ReplaceExponentiation(fPow: NodeId, xcodeml: XcodeProgram, fctType: FunctionType) returns (error: Option<IllegalTransformation>)
      requires xcodeml.Valid() && fPow in IdsOf(xcodeml.root) && fPow != xcodeml.root.id
      modifies xcodeml
      ensures xcodeml.Valid()
      ensures Find(old(xcodeml.root), fPow).Some?
      ensures var op := Find(old(xcodeml.root), fPow).value;
        if |op.children| != 2 then
          error == Some(ArityError(|op.children|, op.line)) &&
          xcodeml.root == old(xcodeml.root) && xcodeml.nextId == old(xcodeml.nextId)
        else
          error.None? && xcodeml.nextId == old(xcodeml.nextId) + CallSize(op) &&
          xcodeml.root == Splice(old(xcodeml.root), fPow, InsertAfter(CallFor(op, old(xcodeml.nextId), powFunctionName, fctType.hash)))
      ensures xcodeml.typeTable == old(xcodeml.typeTable) && xcodeml.nextHash == old(xcodeml.nextHash)
    {
      FindSpec(xcodeml.root, fPow);
      var op := Find(xcodeml.root, fPow).value;
      var nChildren := |op.children|;
      if nChildren != 2 {
        return Some(ArityError(nChildren, op.line));
      }
      InsertPowCall(fPow, xcodeml, fctType);
      error := None;
    }

    /** The two-operand case of `replaceExponentiation`: the call on copies of the operands goes right after the operator. */
    method InsertPowCall(fPow: NodeId, xcodeml: XcodeProgram, fctType: FunctionType)
      requires xcodeml.Valid() && fPow != xcodeml.root.id
      requires Find(xcodeml.root, fPow).Some? && |Find(xcodeml.root, fPow).value.children| == 2
      modifies xcodeml
      ensures xcodeml.Valid()
      ensures var op := Find(old(xcodeml.root), fPow).value;
        && xcodeml.nextId == old(xcodeml.nextId) + CallSize(op)
        && xcodeml.root == Splice(old(xcodeml.root), fPow, InsertAfter(CallFor(op, old(xcodeml.nextId), powFunctionName, fctType.hash)))
      ensures xcodeml.typeTable == old(xcodeml.typeTable) && xcodeml.nextHash == old(xcodeml.nextHash)
    {
      FindSpec(xcodeml.root, fPow);
      var functionCall := CreatePowCall(fPow, xcodeml, fctType);
      xcodeml.InsertNodeAfter(fPow, functionCall);
    }

    /** The call of the power function on copies of the two operands of `fPow`, detached. */
    method CreatePowCall(fPow: NodeId, xcodeml: XcodeProgram, fctType: FunctionType) returns (functionCall: Xnode)
      requires xcodeml.Valid()
      requires Find(xcodeml.root, fPow).Some? && |Find(xcodeml.root, fPow).value.children| == 2
      modifies xcodeml
      ensures xcodeml.Valid() && xcodeml.Detached(functionCall)
      ensures var op := Find(old(xcodeml.root), fPow).value;
        && xcodeml.nextId == old(xcodeml.nextId) + CallSize(op)
        && functionCall == CallFor(op, old(xcodeml.nextId), powFunctionName, fctType.hash)
      ensures xcodeml.root == old(xcodeml.root)
      ensures xcodeml.typeTable == old(xcodeml.typeTable) && xcodeml.nextHash == old(xcodeml.nextHash)
    {
      ghost var t, b := xcodeml.root, xcodeml.nextId;
      var op := Find(xcodeml.root, fPow).value;
      OperandsFound(t, fPow);
      functionCall := xcodeml.CreateFctCall(TypeFReal, powFunctionName, fctType.hash);
      FctCallArguments(b, powFunctionName, fctType.hash);
      var argument := FirstDescendant(functionCall, Arguments).value;
      var a0 := xcodeml.CloneNode(op.children[0].id);
      functionCall := AppendChild(functionCall, argument, a0);
      ghost var b1 := xcodeml.nextId;
      var a1 := xcodeml.CloneNode(op.children[1].id);
      functionCall := AppendChild(functionCall, argument, a1);
      CallAssembled(t, fPow, b, powFunctionName, fctType.hash, a0, b1, a1, xcodeml.nextId, functionCall);
    }

    /**
     * `transform`: the placeholder function type, then a `USE` of the power
     * module for every operator, then the replacement of every operator
     * outside declarations, stopping at the first arity error with what was
     * already done left in place.
     */
    method Transform(xcodeml: XcodeProgram) returns (error: Option<IllegalTransformation>)
      requires xcodeml.Valid() && PowsWellFormed(xcodeml.root)
      modifies xcodeml
      ensures xcodeml.Valid()
      ensures xcodeml.typeTable == old(xcodeml.typeTable) + [FunctionType(old(xcodeml.nextHash), TypeFReal)]
      ensures xcodeml.nextHash == old(xcodeml.nextHash) + 1
      ensures var o := Pass(old(xcodeml.root), old(xcodeml.nextId), usageModuleName, powFunctionName, old(xcodeml.nextHash));
        xcodeml.root == o.tree && xcodeml.nextId == o.next && error == o.error
    {
      var fPowers := MatchAll(xcodeml.root, FPowerExpr);
      var fctType := AddDummyFctType(xcodeml);
      ghost var t0, b0 := xcodeml.root, xcodeml.nextId;
      ImportsStart(t0, b0, usageModuleName);
      var fPowersToKill := ImportAll(xcodeml, fPowers, t0, b0);
      ghost var t1, b1 := xcodeml.root, xcodeml.nextId;
      assert Ready(t1, fPowersToKill) by {
        PassQueue(t0, b0, usageModuleName);
      }
      PassIs(t0, b0, usageModuleName, powFunctionName, fctType.hash, t1, fPowersToKill, b1);
      LoweringStart(t1, b1, fPowersToKill, powFunctionName, fctType.hash);
      error := ReplaceAll(xcodeml, fPowersToKill, fctType, t1, b1);
    }

    /**
     * The first loop of `transform`: a `USE` of the power module for every
     * operator of `fPowers`, and the queue of those not inside declarations.
     */
    method ImportAll(xcodeml: XcodeProgram, fPowers: seq<NodeId>, ghost t0: Xnode, ghost b0: NodeId)
      returns (fPowersToKill: seq<NodeId>)
      requires xcodeml.Valid() && xcodeml.nextId == b0
      requires ImportsSoFar(t0, b0, fPowers, usageModuleName, xcodeml.root, 0, [])
      modifies xcodeml
      ensures xcodeml.Valid()
      ensures xcodeml.typeTable == old(xcodeml.typeTable) && xcodeml.nextHash == old(xcodeml.nextHash)
      ensures xcodeml.nextId == b0 + |fPowers|
      ensures xcodeml.root == WithUses(t0, fPowers, b0, usageModuleName) && fPowersToKill == Queued(t0, fPowers)
    {
      fPowersToKill := [];
      for i := 0 to |fPowers|
        invariant xcodeml.Valid()
        invariant xcodeml.typeTable == old(xcodeml.typeTable) && xcodeml.nextHash == old(xcodeml.nextHash)
        invariant xcodeml.nextId == b0 + i
        invariant ImportsSoFar(t0, b0, fPowers, usageModuleName, xcodeml.root, i, fPowersToKill)
      {
        var fPow := fPowers[i];
        ghost var t := xcodeml.root;
        ImportsAt(t0, b0, fPowers, usageModuleName, t, i, fPowersToKill);
        ghost var d := DirectChild(View(t), fPow, Declarations).value;
        ghost var u := UseNode(xcodeml.nextId, usageModuleName);
        ghost var kill := fPowersToKill;
        AddUse(fPow, usageModuleName, xcodeml);
        if !IsInDecl(xcodeml.root, fPow) {
          fPowersToKill := fPowersToKill + [fPow];
        }
        ImportsStep(t0, b0, fPowers, usageModuleName, t, i, kill, d, u, xcodeml.root, fPowersToKill);
      }
      ImportsEnd(t0, b0, fPowers, usageModuleName, xcodeml.root, fPowersToKill);
    }

    /**
     * The second loop of `transform`: each queued operator replaced by the
     * call, until the first arity error.
     */
    method ReplaceAll(xcodeml: XcodeProgram, fPowersToKill: seq<NodeId>, fctType: FunctionType, ghost t1: Xnode, ghost b1: NodeId)
      returns (error: Option<IllegalTransformation>)
      requires xcodeml.Valid()
      requires LoweringSoFar(t1, b1, fPowersToKill, powFunctionName, fctType.hash, xcodeml.root, xcodeml.nextId, 0)
      modifies xcodeml
      ensures xcodeml.Valid()
      ensures xcodeml.typeTable == old(xcodeml.typeTable) && xcodeml.nextHash == old(xcodeml.nextHash)
      ensures var o := LowerAll(t1, fPowersToKill, b1, powFunctionName, fctType.hash);
        xcodeml.root == o.tree && xcodeml.nextId == o.next && error == o.error
    {
      for j := 0 to |fPowersToKill|
        invariant xcodeml.Valid()
        invariant xcodeml.typeTable == old(xcodeml.typeTable) && xcodeml.nextHash == old(xcodeml.nextHash)
        invariant LoweringSoFar(t1, b1, fPowersToKill, powFunctionName, fctType.hash, xcodeml.root, xcodeml.nextId, j)
      {
        var fPow := fPowersToKill[j];
        ghost var t, b := xcodeml.root, xcodeml.nextId;
        LoweringAt(t1, b1, fPowersToKill, powFunctionName, fctType.hash, t, b, j);
        error := ReplaceExponentiation(fPow, xcodeml, fctType);
        if error.Some? {
          LoweringStops(t1, b1, fPowersToKill, powFunctionName, fctType.hash, t, b, j);
          return;
        }
        ghost var op := Find(t, fPow).value;
        ghost var call := CallFor(op, b, powFunctionName, fctType.hash);
        ghost var t' := xcodeml.root;
        LoweringInserted(t1, b1, fPowersToKill, powFunctionName, fctType.hash, t, b, j, op, call, t');
        xcodeml.DeleteNode(fPow);
        LoweringStep(t1, b1, fPowersToKill, powFunctionName, fctType.hash, t, b, j, op, call, t', xcodeml.root, xcodeml.nextId);
      }
      LoweringEnd(t1, b1, fPowersToKill, powFunctionName, fctType.hash, xcodeml.root, xcodeml.nextId);
      error := None;
    }

    /**
     * `transform` as evidently intended: the `USE` of the power module goes
     * into the scope `getModule` finds for each operator, once per scope (the
     * set `modModules` that `transform` declares), and then the same
     * replacements as `Transform`.
     */
    method TransformScoped(xcodeml: XcodeProgram) returns (error: Option<IllegalTransformation>)
      requires xcodeml.Valid() && ScopedWellFormed(xcodeml.root)
      modifies xcodeml
      ensures xcodeml.Valid()
      ensures xcodeml.typeTable == old(xcodeml.typeTable) + [FunctionType(old(xcodeml.nextHash), TypeFReal)]
      ensures xcodeml.nextHash == old(xcodeml.nextHash) + 1
      ensures exists xs ::
                && ListsScopes(old(xcodeml.root), xs)
                && var o := ScopedPass(old(xcodeml.root), old(xcodeml.nextId), xs, usageModuleName, powFunctionName, old(xcodeml.nextHash));
                   xcodeml.root == o.tree && xcodeml.nextId == o.next && error == o.error
    {
      var fPowers := MatchAll(xcodeml.root, FPowerExpr);
      var fctType := AddDummyFctType(xcodeml);
      ghost var t0, b0 := xcodeml.root, xcodeml.nextId;
      var modModules, fPowersToKill := CollectScopes(xcodeml.root, fPowers);
      var order := Elements(modModules);
      assert ListsScopes(t0, order);
      ScopesStart(t0, b0, order, usageModuleName);
      ImportScopes(xcodeml, order, t0, b0);
      ghost var t1, b1 := xcodeml.root, xcodeml.nextId;
      ScopedQueue(t0, b0, order, usageModuleName, t1, fPowersToKill, b1);
      ScopedPassIs(t0, b0, order, usageModuleName, powFunctionName, fctType.hash, t1, fPowersToKill, b1);
      LoweringStart(t1, b1, fPowersToKill, powFunctionName, fctType.hash);
      error := ReplaceAll(xcodeml, fPowersToKill, fctType, t1, b1);
    }

    /** The `USE` loop of the corrected `transform`: `addUse` once for each scope of `order`. */
    method ImportScopes(xcodeml: XcodeProgram, order: seq<NodeId>, ghost t0: Xnode, ghost b0: NodeId)
      requires xcodeml.Valid() && xcodeml.nextId == b0
      requires TreeSoFar(t0, b0, order, usageModuleName, xcodeml.root, 0)
      modifies xcodeml
      ensures xcodeml.Valid()
      ensures xcodeml.typeTable == old(xcodeml.typeTable) && xcodeml.nextHash == old(xcodeml.nextHash)
      ensures xcodeml.nextId == b0 + |order| && xcodeml.root == WithUses(t0, order, b0, usageModuleName)
    {
      for i := 0 to |order|
        invariant xcodeml.Valid()
        invariant xcodeml.typeTable == old(xcodeml.typeTable) && xcodeml.nextHash == old(xcodeml.nextHash)
        invariant xcodeml.nextId == b0 + i
        invariant TreeSoFar(t0, b0, order, usageModuleName, xcodeml.root, i)
      {
        ghost var t := xcodeml.root;
        ScopesAt(t0, b0, order, usageModuleName, t, i);
        ghost var d := DirectChild(View(t), order[i], Declarations).value;
        ghost var u := UseNode(xcodeml.nextId, usageModuleName);
        AddUse(order[i], usageModuleName, xcodeml);
        TreeStep(t0, b0, order, usageModuleName, t, i, d, u, xcodeml.root);
      }
      ScopesEnd(t0, b0, order, usageModuleName, xcodeml.root);
    }
  }
}
