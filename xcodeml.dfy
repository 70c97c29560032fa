/**
 * The `XcodeProgram` object of the XcodeML library, as far as the
 * transformations use it: the program tree, the type table, and the creation
 * and in-place update of nodes.
 *
 * Node identity is the node identifier; a node that has been created but not
 * yet inserted is a detached value whose identifiers the program has handed
 * out (`Detached`). New identifiers and type hashes come from two counters,
 * which stand for the library's own numbering.
 */
module XcodeML {
  import opened Xtree
  import opened Xedit

  /** An entry of the type table: a function type, named by its hash, and its return type. */
  datatype FunctionType = FunctionType(hash: nat, returnType: string)

  /** The basic type name of Fortran `REAL` (`Xname.TYPE_F_REAL`). */
  const TypeFReal: string := "Freal"

  /** The detached tree `createFctCall` builds, numbered from `b`: a call with a name and an empty argument list. */
  function FctCall(b: NodeId, returnType: string, name: string, hash: nat): Xnode
  {
    Xnode(b, FunctionCall, "", BasicType(returnType), "", 0, [
      Xnode(b + 1, Name, "", FunctionTypeRef(hash), name, 0, []),
      Xnode(b + 2, Arguments, "", NoType, "", 0, [])])
  }

  /**
   * The program being transformed: its tree, its type table, and the
   * counters that number new nodes and new function types. Programs come
   * from the XcodeML parser, which is not part of this model, so there is
   * no constructor; every operation assumes a program that is `Valid()`.
   */
  class XcodeProgram {
    var root: Xnode
    var typeTable: seq<FunctionType>
    var nextId: NodeId
    var nextHash: nat

    /** Identifiers are unique, and the counters are past every identifier and hash in use. */
    ghost predicate Valid()
      reads this
    {
      Distinct(root) &&
      (forall x | x in IdsOf(root) :: x < nextId) &&
      (forall i | 0 <= i < |typeTable| :: typeTable[i].hash < nextHash)
    }

    /** `n` was built from identifiers this program handed out, and is not in the tree. */
    ghost predicate Detached(n: Xnode)
      reads this
    {
      Distinct(n) && forall x | x in IdsOf(n) :: x !in IdsOf(root) && x < nextId
    }

    /** `createNode(kind)`: a new detached node without attributes, text or children. */
    method CreateNode(kind: Xcode) returns (n: Xnode)
      requires Valid()
      modifies this
      ensures Valid() && Detached(n)
      ensures n == Xnode(old(nextId), kind, "", NoType, "", 0, [])
      ensures nextId == old(nextId) + 1
      ensures root == old(root) && typeTable == old(typeTable) && nextHash == old(nextHash)
    {
      n := Xnode(nextId, kind, "", NoType, "", 0, []);
      nextId := nextId + 1;
    }

    /** `createFctCall(returnType, name, hash)`: a detached call of `name` whose name node has the function type `hash`. */
    method CreateFctCall(returnType: string, name: string, hash: nat) returns (call: Xnode)
      requires Valid()
      modifies this
      ensures Valid() && Detached(call)
      ensures call == FctCall(old(nextId), returnType, name, hash)
      ensures nextId == old(nextId) + 3
      ensures root == old(root) && typeTable == old(typeTable) && nextHash == old(nextHash)
    {
      call := FctCall(nextId, returnType, name, hash);
      nextId := nextId + 3;
      FctCallIds(call.id, returnType, name, hash);
    }

    /** `createFunctionType(returnType)`: a function type with a hash not used before. */
    method CreateFunctionType(returnType: string) returns (ft: FunctionType)
      requires Valid()
      modifies this
      ensures Valid()
      ensures ft == FunctionType(old(nextHash), returnType)
      ensures forall i | 0 <= i < |typeTable| :: typeTable[i].hash != ft.hash
      ensures nextHash == old(nextHash) + 1
      ensures root == old(root) && typeTable == old(typeTable) && nextId == old(nextId)
    {
      ft := FunctionType(nextHash, returnType);
      nextHash := nextHash + 1;
    }

    /** `getTypeTable().add(ft)`. */
    method AddType(ft: FunctionType)
      requires Valid() && ft.hash < nextHash
      modifies this
      ensures Valid()
      ensures typeTable == old(typeTable) + [ft]
      ensures root == old(root) && nextId == old(nextId) && nextHash == old(nextHash)
    {
      typeTable := typeTable + [ft];
    }

    /** `setValue(v)` on node `x`. */
    method SetNodeValue(x: NodeId, v: string)
      requires Valid() && x in IdsOf(root)
      modifies this
      ensures Valid()
      ensures root == SetValue(old(root), x, v)
      ensures View(root) == WithValue(old(View(root)), x, v)
      ensures typeTable == old(typeTable) && nextId == old(nextId) && nextHash == old(nextHash)
    {
      SetValueView(root, x, v);
      root := SetValue(root, x, v);
    }

    /** `insert(n, false)` on node `p`: `n` itself becomes the first child of `p`. */
    method InsertFirst(p: NodeId, n: Xnode)
      requires Valid() && p in IdsOf(root) && Detached(n)
      modifies this
      ensures Valid()
      ensures root == InsertFirstChild(old(root), p, n)
      ensures View(root) == Prepended(old(View(root)), p, n)
      ensures typeTable == old(typeTable) && nextId == old(nextId) && nextHash == old(nextHash)
    {
      InsertFirstView(root, p, n);
      InsertFirstIds(root, p, n);
      root := InsertFirstChild(root, p, n);
    }

    /** `insertAfter(n)` on node `p`: `n` follows `p` among its siblings. */
    method InsertNodeAfter(p: NodeId, n: Xnode)
      requires Valid() && p in IdsOf(root) && p != root.id && Detached(n)
      modifies this
      ensures Valid()
      ensures root == Splice(old(root), p, InsertAfter(n))
      ensures typeTable == old(typeTable) && nextId == old(nextId) && nextHash == old(nextHash)
    {
      InsertAfterIds(root, p, n);
      root := Splice(root, p, InsertAfter(n));
    }

    /** `safeDelete(p)`: node `p` and its subtree leave the tree. */
    method DeleteNode(p: NodeId)
      requires Valid() && p in IdsOf(root) && p != root.id
      modifies this
      ensures Valid()
      ensures root == Splice(old(root), p, Delete)
      ensures typeTable == old(typeTable) && nextId == old(nextId) && nextHash == old(nextHash)
    {
      DeleteIds(root, p);
      root := Splice(root, p, Delete);
    }

    /** `cloneNode()` on node `x`: a detached deep copy with fresh identifiers. */
    method CloneNode(x: NodeId) returns (c: Xnode)
      requires Valid() && x in IdsOf(root)
      modifies this
      ensures Valid() && Detached(c)
      ensures Find(root, x).Some? && c == Clone(Find(root, x).value, old(nextId))
      ensures nextId == old(nextId) + Size(Find(root, x).value)
      ensures root == old(root) && typeTable == old(typeTable) && nextHash == old(nextHash)
    {
      FindSpec(root, x);
      c := Clone(Find(root, x).value, nextId);
      CloneIds(Find(root, x).value, nextId);
      nextId := nextId + Size(Find(root, x).value);
    }
  }

  lemma FctCallIds(b: NodeId, returnType: string, name: string, hash: nat)
    ensures forall x :: x in IdsOf(FctCall(b, returnType, name, hash)) <==> b <= x < b + 3
    ensures Distinct(FctCall(b, returnType, name, hash))
  {
    var c := FctCall(b, returnType, name, hash);
    assert c.children == [c.children[0]] + [c.children[1]];
    ViewInConcat([c.children[0]], [c.children[1]]);
    ViewInSingle(c.children[0]);
    ViewInSingle(c.children[1]);
    assert IdsIn(c.children) == {b + 1, b + 2};
  }
}
