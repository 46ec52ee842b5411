// Structural queries over ANGLE nodes that the rewriting passes rely on
// (lib/spglsl-angle-node-utils.cpp).

module NodeUtils {
  import opened AngleAst

  /** The unary operators that are printed as operators rather than as builtin calls. */
  const NonFunctionUnaryOps: set<Op> :=
    {Negative, Positive, LogicalNot, BitwiseNot,
     PostIncrement, PostDecrement, PreIncrement, PreDecrement, ArrayLength}

  /** `opIsBuiltinUnaryFunction`. */
  function OpIsBuiltinUnaryFunction(op: Op): (r: bool)
    ensures r <==> op !in NonFunctionUnaryOps
  {
    match op
    case Negative => false
    case Positive => false
    case LogicalNot => false
    case BitwiseNot => false
    case PostIncrement => false
    case PostDecrement => false
    case PreIncrement => false
    case PreDecrement => false
    case ArrayLength => false
    case _ => true
  }

  // ---------------------------------------------------------------------
  // nodeConstantBooleanValue

  /** The basic types whose constants `nodeConstantBooleanValue` inspects. */
  predicate HasTruthType(t: Type) {
    t.basic in {Float, Double, Int, UInt, Bool}
  }

  /**
   * Number of components inspected: component 0 is always read, then
   * components 1 .. nominal*secondary - 1.
   */
  function InspectedCount(t: Type): nat {
    if t.primarySize * t.secondarySize == 0 then 1 else t.primarySize * t.secondarySize
  }

  /** The node has a truth value to compute: typed, of a numeric or bool type, with a constant value. */
  predicate TruthDefined(n: Node) {
    IsTyped(n) && HasTruthType(n.ty) && ConstantValue(n).Some?
  }

  /** What the source demands: the constant array holds every component it reads. */
  predicate TruthComponentsPresent(n: Node) {
    TruthDefined(n) ==> InspectedCount(n.ty) <= |ConstantValue(n).value|
  }

  /** The inspected components. */
  function TruthComponents(n: Node): seq<ConstScalar>
    requires TruthDefined(n) && TruthComponentsPresent(n)
  {
    ConstantValue(n).value[..InspectedCount(n.ty)]
  }

  /** `nodeConstantBooleanValue`: 0 when all components are zero, 1 when none is, -1 otherwise. */
  method NodeConstantBooleanValue(node: Node) returns (r: int)
    requires TruthComponentsPresent(node)
    ensures r == 0 <==> (TruthDefined(node) &&
      forall i :: 0 <= i < |TruthComponents(node)| ==> IsZero(TruthComponents(node)[i]))
    ensures r == 1 <==> (TruthDefined(node) &&
      forall i :: 0 <= i < |TruthComponents(node)| ==> !IsZero(TruthComponents(node)[i]))
    ensures r == -1 <==> (!TruthDefined(node) ||
      exists i, j :: 0 <= i < |TruthComponents(node)| && 0 <= j < |TruthComponents(node)| &&
        IsZero(TruthComponents(node)[i]) && !IsZero(TruthComponents(node)[j]))
  {
    if !IsTyped(node) {
      return -1;
    }
    if node.ty.basic !in {Float, Double, Int, UInt, Bool} {
      return -1;
    }
    var value := ConstantValue(node);
    if value.None? {
      return -1;
    }
    var v := value.value;
    var size := node.ty.primarySize * node.ty.secondarySize;
    ghost var comps := TruthComponents(node);
    var first := IsZero(v[0]);
    var i := 1;
    while i < size
      invariant 1 <= i <= InspectedCount(node.ty)
      invariant forall k :: 0 <= k < i ==> IsZero(comps[k]) == first
    {
      if first != IsZero(v[i]) {
        assert IsZero(comps[0]) != IsZero(comps[i]);
        return -1;
      }
      i := i + 1;
    }
    assert i == |comps|;
    return if first then 0 else 1;
  }

  // ---------------------------------------------------------------------
  // Blocks

  /** `nodeBlockIsEmpty`: a null pointer or a block without children. */
  function NodeBlockIsEmpty(node: MaybeNode): (r: bool)
    ensures r <==> node == NullNode || node == NodePtr(Block([]))
  {
    if node.NullNode? then true
    else if !node.node.Block? then false
    else |node.node.stmts| == 0
  }

  predicate IsEmptyBlock(n: Node) { NodeBlockIsEmpty(NodePtr(n)) }

  /** The children that are not empty blocks, in order. */
  function NonEmptyChildren(s: seq<Node>): (r: seq<Node>)
    ensures |r| <= |s|
    ensures forall x :: x in r ==> x in s && !IsEmptyBlock(x)
  {
    if s == [] then []
    else NonEmptyChildren(s[..|s| - 1]) + (if IsEmptyBlock(s[|s| - 1]) then [] else [s[|s| - 1]])
  }

  lemma {:induction false} NonEmptyChildrenAppend(a: seq<Node>, b: seq<Node>)
    ensures NonEmptyChildren(a + b) == NonEmptyChildren(a) + NonEmptyChildren(b)
    decreases |b|
  {
    if b == [] {
      assert a + b == a;
    } else {
      var b' := b[..|b| - 1];
      assert (a + b)[..|a + b| - 1] == a + b';
      NonEmptyChildrenAppend(a, b');
    }
  }

  /** `k` is the one child of `s` that is not an empty block. */
  predicate OnlyNonEmptyChild(s: seq<Node>, k: int) {
    0 <= k < |s| && !IsEmptyBlock(s[k]) &&
    forall j :: 0 <= j < |s| && j != k ==> IsEmptyBlock(s[j])
  }

  lemma {:induction false} NonEmptyChildrenEmpty(s: seq<Node>)
    ensures NonEmptyChildren(s) == [] <==> forall j :: 0 <= j < |s| ==> IsEmptyBlock(s[j])
    decreases |s|
  {
    if s != [] {
      NonEmptyChildrenEmpty(s[..|s| - 1]);
      assert forall j :: 0 <= j < |s| - 1 ==> s[..|s| - 1][j] == s[j];
    }
  }

  /** An empty block appended after the only non-empty child leaves it the only one. */
  lemma OnlyChildExtends(p: seq<Node>, x: Node, k: int)
    requires OnlyNonEmptyChild(p, k) && IsEmptyBlock(x)
    ensures OnlyNonEmptyChild(p + [x], k)
  {
    var s := p + [x];
    forall j | 0 <= j < |s| && j != k ensures IsEmptyBlock(s[j]) {
      if j < |p| {
        assert s[j] == p[j];
      }
    }
  }

  /** A non-empty child appended after empty blocks only is the only non-empty one. */
  lemma OnlyChildLast(p: seq<Node>, x: Node)
    requires forall j :: 0 <= j < |p| ==> IsEmptyBlock(p[j])
    requires !IsEmptyBlock(x)
    ensures OnlyNonEmptyChild(p + [x], |p|)
  {
    var s := p + [x];
    forall j | 0 <= j < |p| ensures IsEmptyBlock(s[j]) {
      assert s[j] == p[j];
    }
  }

  /** A child list with exactly one non-empty child has it at a unique position. */
  lemma {:induction false} SingleNonEmptyChild(s: seq<Node>)
    ensures |NonEmptyChildren(s)| == 1 ==> exists k :: OnlyNonEmptyChild(s, k) && NonEmptyChildren(s)[0] == s[k]
    decreases |s|
  {
    if s != [] && |NonEmptyChildren(s)| == 1 {
      var p, x := s[..|s| - 1], s[|s| - 1];
      assert s == p + [x];
      if IsEmptyBlock(x) {
        assert NonEmptyChildren(s) == NonEmptyChildren(p);
        SingleNonEmptyChild(p);
        var k :| OnlyNonEmptyChild(p, k) && NonEmptyChildren(p)[0] == p[k];
        OnlyChildExtends(p, x, k);
        assert s[k] == p[k];
      } else {
        assert NonEmptyChildren(s) == NonEmptyChildren(p) + [x];
        NonEmptyChildrenEmpty(p);
        OnlyChildLast(p, x);
      }
    }
  }

  lemma SplitAt(s: seq<Node>, k: int)
    requires 0 <= k <= |s|
    ensures s == s[..k] + s[k..]
  {
  }

  lemma SplitAround(s: seq<Node>, k: int)
    requires 0 <= k < |s|
    ensures s == (s[..k] + [s[k]]) + s[k + 1..]
  {
  }

  /** The only non-empty child is all that remains of the list. */
  lemma OnlyChildRemains(s: seq<Node>, k: int)
    requires OnlyNonEmptyChild(s, k)
    ensures NonEmptyChildren(s) == [s[k]]
  {
    var before, after := s[..k], s[k + 1..];
    assert NonEmptyChildren(before) == [] by {
      NonEmptyChildrenEmpty(before);
      forall j | 0 <= j < |before| ensures IsEmptyBlock(before[j]) {
        assert before[j] == s[j];
      }
    }
    assert NonEmptyChildren(after) == [] by {
      NonEmptyChildrenEmpty(after);
      forall j | 0 <= j < |after| ensures IsEmptyBlock(after[j]) {
        assert after[j] == s[k + 1 + j];
      }
    }
    assert NonEmptyChildren([s[k]]) == [s[k]] by {
      assert [s[k]][..0] == [];
    }
    calc {
      NonEmptyChildren(s);
    ==  { SplitAround(s, k); }
      NonEmptyChildren((before + [s[k]]) + after);
    ==  { NonEmptyChildrenAppend(before + [s[k]], after); }
      NonEmptyChildren(before + [s[k]]) + NonEmptyChildren(after);
    ==  { NonEmptyChildrenAppend(before, [s[k]]); }
      NonEmptyChildren(before) + NonEmptyChildren([s[k]]) + NonEmptyChildren(after);
    }
  }

  /**
   * Specification of `nodeGetBlockSingleNode`: the unique child that is not
   * an empty block; null for a null block and when there are zero or several.
   */
  function BlockSingleNode(block: MaybeBlock): (r: MaybeNode)
    ensures block.NullBlock? ==> r == NullNode
    ensures block.BlockPtr? ==>
      (r.NodePtr? <==> exists k :: OnlyNonEmptyChild(block.stmts, k)) &&
      (forall k :: OnlyNonEmptyChild(block.stmts, k) ==> r == NodePtr(block.stmts[k]))
  {
    match block
    case NullBlock => NullNode
    case BlockPtr(s) =>
      SingleNonEmptyChild(s);
      forall k | OnlyNonEmptyChild(s, k) ensures NonEmptyChildren(s) == [s[k]] {
        OnlyChildRemains(s, k);
      }
      var ne := NonEmptyChildren(s);
      if |ne| == 1 then NodePtr(ne[0]) else NullNode
  }

  /** One more child read: the non-empty children of the prefix grow by that child unless it is an empty block. */
  lemma NonEmptyChildrenStep(s: seq<Node>, i: int)
    requires 0 <= i < |s|
    ensures NonEmptyChildren(s[..i + 1]) == NonEmptyChildren(s[..i]) + if IsEmptyBlock(s[i]) then [] else [s[i]]
  {
    assert s[..i + 1][..i] == s[..i];
  }

  /** A second non-empty child means the block has no single node. */
  lemma SecondNonEmptyChild(s: seq<Node>, i: int)
    requires 0 <= i < |s| && |NonEmptyChildren(s[..i])| == 1 && !IsEmptyBlock(s[i])
    ensures BlockSingleNode(BlockPtr(s)) == NullNode
  {
    var front, back := s[..i + 1], s[i + 1..];
    calc {
      |NonEmptyChildren(s)|;
    ==  { SplitAt(s, i + 1); NonEmptyChildrenAppend(front, back); }
      |NonEmptyChildren(front)| + |NonEmptyChildren(back)|;
    >=
      |NonEmptyChildren(front)|;
    ==  { NonEmptyChildrenStep(s, i); }
      2;
    }
  }

  /** `nodeGetBlockSingleNode`: one pass over the children, giving up at the second non-empty one. */
  method NodeGetBlockSingleNode(block: MaybeBlock) returns (r: MaybeNode)
    ensures r == BlockSingleNode(block)
  {
    r := NullNode;
    if block.BlockPtr? {
      var s := block.stmts;
      var i := 0;
      while i < |s|
        invariant 0 <= i <= |s|
        invariant |NonEmptyChildren(s[..i])| <= 1
        invariant r == if |NonEmptyChildren(s[..i])| == 1 then NodePtr(NonEmptyChildren(s[..i])[0]) else NullNode
      {
        var child := s[i];
        NonEmptyChildrenStep(s, i);
        if !NodeBlockIsEmpty(NodePtr(child)) {
          if r.NodePtr? {
            SecondNonEmptyChild(s, i);
            return NullNode;
          }
          r := NodePtr(child);
        }
        i := i + 1;
      }
      assert s[..i] == s;
    }
  }

  /** `nodeGetBlockLastNode`. */
  function NodeGetBlockLastNode(block: MaybeBlock): (r: MaybeNode)
    ensures r.NodePtr? <==> block.BlockPtr? && block.stmts != []
    ensures r.NodePtr? ==> r.node == block.stmts[|block.stmts| - 1]
  {
    if block.BlockPtr? && |block.stmts| > 0 then NodePtr(block.stmts[|block.stmts| - 1])
    else NullNode
  }

  // ---------------------------------------------------------------------
  // Classifiers

  /** `nodeHasSideEffects`: conservative for anything that is not a typed expression. */
  function NodeHasSideEffects(node: MaybeNode): (r: bool)
    ensures node.NullNode? ==> !r
    ensures node.NodePtr? && (!IsTyped(node.node) || node.node.FunctionPrototype?) ==> r
    ensures node.NodePtr? && IsTyped(node.node) && !node.node.FunctionPrototype? ==>
      (r <==> HasSideEffects(node.node))
  {
    if node.NullNode? then false
    else if IsTyped(node.node) && !node.node.FunctionPrototype? then HasSideEffects(node.node)
    else true
  }

  /** `nodeIsSomeSortOfDeclaration`. */
  function NodeIsSomeSortOfDeclaration(node: MaybeNode): (r: bool)
    ensures r <==> (node.NodePtr? &&
      (node.node.Declaration? || node.node.GlobalQualifierDeclaration? ||
       node.node.FunctionDefinition? || node.node.FunctionPrototype? ||
       node.node.PreprocessorDirective? ||
       (node.node.Binary? && node.node.op == Initialize)))
  {
    if node.NullNode? then false
    else
      var n := node.node;
      if n.Declaration? || n.GlobalQualifierDeclaration? || n.FunctionDefinition? ||
         n.FunctionPrototype? || n.PreprocessorDirective? then true
      else n.Binary? && n.op == Initialize
  }

  /** Every statement of the list is some sort of declaration. */
  predicate AllDeclarations(stmts: seq<Node>) {
    forall i :: 0 <= i < |stmts| ==> NodeIsSomeSortOfDeclaration(NodePtr(stmts[i]))
  }

  /**
   * `nodeBlockContainsSomeSortOfDeclaration` as written. For a block, the
   * loop over the children either returns false at the first child that is
   * not a declaration or falls through to the final `return false`, so no
   * block is ever reported as containing a declaration.
   */
  method NodeBlockContainsSomeSortOfDeclaration(node: MaybeNode) returns (r: bool)
    ensures node.NodePtr? && node.node.Block? ==> !r
    ensures !(node.NodePtr? && node.node.Block?) ==> (r <==> NodeIsSomeSortOfDeclaration(node))
  {
    if node.NodePtr? {
      if node.node.Block? {
        var stmts := node.node.stmts;
        var i := 0;
        while i < |stmts|
          invariant 0 <= i <= |stmts|
        {
          if !NodeIsSomeSortOfDeclaration(NodePtr(stmts[i])) {
            return false;
          }
          i := i + 1;
        }
      } else if NodeIsSomeSortOfDeclaration(node) {
        return true;
      }
    }
    return false;
  }

  /**
   * The same loop with the `return true` it evidently leads up to: a block
   * qualifies when every child is some sort of declaration, and any other
   * node when it is one itself.
   */
  method BlockConsistsOfDeclarations(node: MaybeNode) returns (r: bool)
    ensures node.NodePtr? && node.node.Block? ==> (r <==> AllDeclarations(node.node.stmts))
    ensures !(node.NodePtr? && node.node.Block?) ==> (r <==> NodeIsSomeSortOfDeclaration(node))
  {
    if node.NodePtr? {
      if node.node.Block? {
        var stmts := node.node.stmts;
        var i := 0;
        while i < |stmts|
          invariant 0 <= i <= |stmts|
          invariant forall k :: 0 <= k < i ==> NodeIsSomeSortOfDeclaration(NodePtr(stmts[k]))
        {
          if !NodeIsSomeSortOfDeclaration(NodePtr(stmts[i])) {
            return false;
          }
          i := i + 1;
        }
        return true;
      } else if NodeIsSomeSortOfDeclaration(node) {
        return true;
      }
    }
    return false;
  }

  /**
   * A block holding one declaration: the code as written reports it as
   * holding none, the intended loop reports it as a declaration block.
   */
  method DeclarationBlockIsMisreported() returns (asWritten: bool, intended: bool)
    ensures !asWritten && intended
  {
    var b := NodePtr(Block([Declaration([])]));
    assert NodeIsSomeSortOfDeclaration(NodePtr(b.node.stmts[0]));
    asWritten := NodeBlockContainsSomeSortOfDeclaration(b);
    intended := BlockConsistsOfDeclarations(b);
  }

  /** `isIntermNodeSingleStatement`. */
  function IsIntermNodeSingleStatement(node: Node): (r: bool)
    ensures !r <==> node.FunctionDefinition? || node.Block? || node.IfElse? || node.Loop? ||
                    node.Switch? || node.Case? || node.PreprocessorDirective?
  {
    match node
    case FunctionDefinition(_, _) => false
    case Block(_) => false
    case IfElse(_, _, _) => false
    case Loop(_, _, _, _) => false
    case Switch(_, _) => false
    case Case(_) => false
    case PreprocessorDirective(_) => false
    case _ => true
  }

  // ---------------------------------------------------------------------
  // All-zero / all-one constants

  /** Which component test the constant walk applies. */
  datatype LeafTest = ZeroTest | OneTest

  /** The zero walk asks the component; the one walk reads it through the enclosing type. */
  predicate LeafPasses(test: LeafTest, basic: BasicType, c: ConstScalar) {
    match test
    case ZeroTest => IsZero(c)
    case OneTest => IsOneAs(basic, c)
  }

  /**
   * The basic type of every component the walk visits, in visiting order:
   * a structure contributes its fields once each (its array sizes are not
   * walked), anything else `getObjectSize` components of its own basic type.
   */
  function LeafTypes(t: Type): seq<BasicType>
    decreases t, 1
  {
    if t.basic == Struct then FieldLeafTypes(t.fields) else seq(ObjectSize(t), _ => t.basic)
  }

  function FieldLeafTypes(fields: seq<Type>): seq<BasicType>
    decreases fields, 0
  {
    if fields == [] then []
    else FieldLeafTypes(fields[..|fields| - 1]) + LeafTypes(fields[|fields| - 1])
  }

  /** Every leaf in `leaves`, matched with the components from `start` on, passes `test`. */
  predicate LeavesPass(test: LeafTest, leaves: seq<BasicType>, values: seq<ConstScalar>, start: nat)
    requires start + |leaves| <= |values|
  {
    forall i :: 0 <= i < |leaves| ==> LeafPasses(test, leaves[i], values[start + i])
  }

  lemma LeavesPassSplit(test: LeafTest, a: seq<BasicType>, b: seq<BasicType>, values: seq<ConstScalar>, start: nat)
    requires start + |a| + |b| <= |values|
    ensures LeavesPass(test, a + b, values, start) <==>
      (LeavesPass(test, a, values, start) && LeavesPass(test, b, values, start + |a|))
  {
    if LeavesPass(test, a, values, start) && LeavesPass(test, b, values, start + |a|) {
      forall i | 0 <= i < |a + b|
        ensures LeafPasses(test, (a + b)[i], values[start + i])
      {
        if i >= |a| {
          assert (a + b)[i] == b[i - |a|];
        }
      }
    }
    if LeavesPass(test, a + b, values, start) {
      forall i | 0 <= i < |a|
        ensures LeafPasses(test, a[i], values[start + i])
      {
        assert (a + b)[i] == a[i];
      }
      forall i | 0 <= i < |b|
        ensures LeafPasses(test, b[i], values[start + |a| + i])
      {
        assert (a + b)[|a| + i] == b[i];
      }
    }
  }

  /** Appending one field appends that field's leaves. */
  lemma FieldLeafTypesSnoc(p: seq<Type>, x: Type)
    ensures FieldLeafTypes(p + [x]) == FieldLeafTypes(p) + LeafTypes(x)
  {
    assert (p + [x])[..|p|] == p;
  }

  lemma {:induction false} FieldLeafTypesSplit(fields: seq<Type>, i: nat)
    requires i <= |fields|
    ensures FieldLeafTypes(fields) == FieldLeafTypes(fields[..i]) + FieldLeafTypes(fields[i..])
    decreases |fields|
  {
    if i == |fields| {
      assert fields[..i] == fields;
      assert fields[i..] == [];
    } else {
      var p, x := fields[..|fields| - 1], fields[|fields| - 1];
      calc {
        FieldLeafTypes(fields);
      ==  { assert fields == p + [x]; FieldLeafTypesSnoc(p, x); }
        FieldLeafTypes(p) + LeafTypes(x);
      ==  { FieldLeafTypesSplit(p, i); }
        (FieldLeafTypes(p[..i]) + FieldLeafTypes(p[i..])) + LeafTypes(x);
      ==
        FieldLeafTypes(p[..i]) + (FieldLeafTypes(p[i..]) + LeafTypes(x));
      ==  { assert p[i..] + [x] == fields[i..]; FieldLeafTypesSnoc(p[i..], x); }
        FieldLeafTypes(p[..i]) + FieldLeafTypes(fields[i..]);
      ==  { assert p[..i] == fields[..i]; }
        FieldLeafTypes(fields[..i]) + FieldLeafTypes(fields[i..]);
      }
    }
  }

  /** A null cursor is C++'s `nullptr`. */
  datatype Cursor = NullCursor | At(pos: nat)

  /**
   * `_constantUnionIsAllZero` / `_constantUnionIsAllOne`: walk the
   * components of a `ty` value starting at cursor `p`, clearing `result` and
   * returning a null cursor at the first component that fails `test`.
   */
  method WalkConstant(test: LeafTest, ty: Type, values: seq<ConstScalar>, p: Cursor, result: bool)
    returns (next: Cursor, resultOut: bool)
    requires p.At? ==> p.pos + |LeafTypes(ty)| <= |values|
    ensures !result || p.NullCursor? ==> next == NullCursor && resultOut == result
    ensures result && p.At? ==>
      if LeavesPass(test, LeafTypes(ty), values, p.pos)
      then next == At(p.pos + |LeafTypes(ty)|) && resultOut
      else next == NullCursor && !resultOut
    decreases ty
  {
    if !result || p.NullCursor? {
      return NullCursor, result;
    }
    if ty.basic == Struct {
      next, resultOut := WalkFields(test, ty.fields, values, p, result);
      return;
    }
    var size := ObjectSize(ty);
    var k := 0;
    while k < size
      invariant 0 <= k <= size
      invariant forall j :: p.pos <= j < p.pos + k ==> LeafPasses(test, ty.basic, values[j])
    {
      if !LeafPasses(test, ty.basic, values[p.pos + k]) {
        assert LeafTypes(ty)[k] == ty.basic;
        return NullCursor, false;
      }
      k := k + 1;
    }
    assert forall j :: 0 <= j < size ==> LeafTypes(ty)[j] == ty.basic;
    return At(p.pos + size), true;
  }

  /** The structure branch of the walk: the fields in order, while the cursor is not null. */
  /** The leaves of one more field follow those of the fields before it, and a passing walk passes on every prefix. */
  lemma WalkFieldsStep(test: LeafTest, fields: seq<Type>, values: seq<ConstScalar>, start: nat, i: int)
    requires 0 <= i < |fields| && start + |FieldLeafTypes(fields)| <= |values|
    ensures FieldLeafTypes(fields[..i + 1]) == FieldLeafTypes(fields[..i]) + LeafTypes(fields[i])
    ensures |FieldLeafTypes(fields[..i + 1])| <= |FieldLeafTypes(fields)|
    ensures LeavesPass(test, FieldLeafTypes(fields[..i + 1]), values, start) <==>
      LeavesPass(test, FieldLeafTypes(fields[..i]), values, start) &&
      LeavesPass(test, LeafTypes(fields[i]), values, start + |FieldLeafTypes(fields[..i])|)
    ensures LeavesPass(test, FieldLeafTypes(fields), values, start) ==>
      LeavesPass(test, FieldLeafTypes(fields[..i + 1]), values, start)
  {
    var a, b := FieldLeafTypes(fields[..i]), LeafTypes(fields[i]);
    var rest := FieldLeafTypes(fields[i + 1..]);
    assert FieldLeafTypes(fields[..i + 1]) == a + b by {
      assert fields[..i + 1][..i] == fields[..i];
    }
    assert FieldLeafTypes(fields) == (a + b) + rest by {
      FieldLeafTypesSplit(fields, i + 1);
    }
    LeavesPassSplit(test, a, b, values, start);
    LeavesPassSplit(test, a + b, rest, values, start);
  }

  method WalkFields(test: LeafTest, fields: seq<Type>, values: seq<ConstScalar>, p: Cursor, result: bool)
    returns (next: Cursor, resultOut: bool)
    requires result && p.At? && p.pos + |FieldLeafTypes(fields)| <= |values|
    ensures if LeavesPass(test, FieldLeafTypes(fields), values, p.pos)
      then next == At(p.pos + |FieldLeafTypes(fields)|) && resultOut
      else next == NullCursor && !resultOut
    decreases fields
  {
    next := p;
    resultOut := result;
    var i := 0;
    assert fields[..0] == [];
    while next.At? && i < |fields|
      invariant 0 <= i <= |fields|
      invariant |FieldLeafTypes(fields[..i])| <= |FieldLeafTypes(fields)|
      invariant next.At? ==> (resultOut &&
        next.pos == p.pos + |FieldLeafTypes(fields[..i])| &&
        LeavesPass(test, FieldLeafTypes(fields[..i]), values, p.pos))
      invariant next.NullCursor? ==>
        !resultOut && !LeavesPass(test, FieldLeafTypes(fields), values, p.pos)
    {
      WalkFieldsStep(test, fields, values, p.pos, i);
      next, resultOut := WalkConstant(test, fields[i], values, next, resultOut);
      i := i + 1;
    }
    if next.At? {
      assert fields[..i] == fields;
    }
  }

  /** What the source demands of a constant union: its array holds every component the walk reads. */
  predicate WalkComponentsPresent(node: MaybeNode) {
    node.NodePtr? && node.node.ConstantUnion? && node.node.value.Some? ==>
      |LeafTypes(node.node.ty)| <= |node.node.value.value|
  }

  /** `nodeConstantUnionIsAllZero`: a constant union without a value counts as all zero. */
  method NodeConstantUnionIsAllZero(node: MaybeNode) returns (r: bool)
    requires WalkComponentsPresent(node)
    ensures r <==> (node.NodePtr? && node.node.ConstantUnion? &&
      (node.node.value.None? ||
       LeavesPass(ZeroTest, LeafTypes(node.node.ty), node.node.value.value, 0)))
  {
    if node.NullNode? || !node.node.ConstantUnion? {
      return false;
    }
    var c := node.node;
    // A missing value is a null cursor: the walk returns at once and leaves `result` set.
    var values := if c.value.Some? then c.value.value else [];
    var start := if c.value.Some? then At(0) else NullCursor;
    var _, result := WalkConstant(ZeroTest, c.ty, values, start, true);
    return result;
  }

  /** `nodeConstantUnionIsAllOne`: a constant union without a value is not all one. */
  method NodeConstantUnionIsAllOne(node: MaybeNode) returns (r: bool)
    requires WalkComponentsPresent(node)
    ensures r <==> (node.NodePtr? && node.node.ConstantUnion? && node.node.value.Some? &&
      LeavesPass(OneTest, LeafTypes(node.node.ty), node.node.value.value, 0))
  {
    if node.NullNode? || !node.node.ConstantUnion? || node.node.value.None? {
      return false;
    }
    var c := node.node;
    var _, result := WalkConstant(OneTest, c.ty, c.value.value, At(0), true);
    return result;
  }
}
