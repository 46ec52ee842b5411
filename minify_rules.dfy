// The comma/ternary folding pass of tree-ops/treeops-minify.cpp, stated as
// functions: the per-statement rewrites, the left-to-right fold of one
// statement list, and one post-order traversal of a whole tree.
//
// New nodes get the types ANGLE's constructors give them: a comma has the
// type of its right operand, an assignment the type of its left operand, a
// ternary the type of its true branch, and `&&` is a scalar bool.

module CommaFolding {
  import opened AngleAst
  import opened NodeUtils

  const ScalarBool := Type(Bool, 1, 1, [], [])
  const NoType := Type(Void, 0, 0, [], [])

  /** The type of a typed node; untyped nodes have none. */
  function TypeOf(n: Node): Type {
    if IsTyped(n) then n.ty else NoType
  }

  // ---------------------------------------------------------------------
  // _asCommaOpArg

  /** The node kinds allowed as an operand of the sequence operator. */
  predicate IsCommaKind(n: Node) {
    n.Aggregate? || n.Swizzle? || n.Binary? || n.Unary? || n.Ternary? || n.Symbol? || n.ConstantUnion?
  }

  /** The sequence operator is not allowed for void, arrays, or structures containing arrays. */
  predicate IsCommaType(t: Type) {
    !IsArray(t) && t.basic != Void && !IsStructureContainingArrays(t)
  }

  /** `_asCommaOpArg`: the node itself when it may be an operand of the sequence operator, else null. */
  function AsCommaOpArg(node: MaybeNode): (r: MaybeNode)
    ensures r.NodePtr? <==>
      (node.NodePtr? && IsTyped(node.node) && IsCommaKind(node.node) && IsCommaType(node.node.ty))
    ensures r.NodePtr? ==> r == node
  {
    if node.NullNode? then NullNode
    else
      var n := node.node;
      if !IsTyped(n) then NullNode
      else if !(n.Aggregate? || n.Swizzle? || n.Binary? || n.Unary? ||
                n.Ternary? || n.Symbol? || n.ConstantUnion?) then NullNode
      else if IsArray(n.ty) || n.ty.basic == Void || IsStructureContainingArrays(n.ty) then NullNode
      else node
  }

  /** A statement that can join a comma chain. */
  predicate Foldable(n: Node) {
    AsCommaOpArg(NodePtr(n)).NodePtr?
  }

  // ---------------------------------------------------------------------
  // Per-statement rewrites (treeops-minify.cpp:52-126)

  /**
   * `if (c) {a0} else {a1}` becomes `c ? a0 : a1` and `if (c) {a0}` becomes
   * `c && a0`, where `a0`, `a1` are the single non-empty statements of the
   * blocks and are foldable.
   */
  function FoldIf(n: Node): Node {
    if !n.IfElse? then n
    else
      var a0 := AsCommaOpArg(BlockSingleNode(n.trueBlock));
      if a0.NullNode? then n
      else if n.falseBlock.BlockPtr? then
        var a1 := AsCommaOpArg(BlockSingleNode(n.falseBlock));
        if a1.NodePtr? && a0.node.ty == a1.node.ty then Ternary(a0.node.ty, n.cond, a0.node, a1.node)
        else n
      else if IsScalarBool(a0.node.ty) then Binary(ScalarBool, LogicalAnd, n.cond, a0.node)
      else n
  }

  /** The assignment a ternary branch ends in: the branch itself, or the right operand of a comma. */
  function BranchAssignment(b: Node): (r: MaybeNode)
    ensures r.NodePtr? ==> r.node.Binary? && IsAssignment(r.node.op)
  {
    if b.Binary? && IsAssignment(b.op) then NodePtr(b)
    else if b.Binary? && b.op == Comma && b.right.Binary? && IsAssignment(b.right.op) then NodePtr(b.right)
    else NullNode
  }

  /** A branch with its assignment taken out: the right-hand side, after the branch's comma prefix if any. */
  function BranchValue(b: Node, assignment: Node): Node
    requires b.Binary? && assignment.Binary?
  {
    if b.op == Comma then Binary(TypeOf(assignment.right), Comma, b.left, assignment.right)
    else assignment.right
  }

  /** `c ? (p0, x op r0) : (p1, x op r1)` becomes `x op (c ? (p0, r0) : (p1, r1))`. */
  function HoistAssignment(n: Node): Node {
    if !n.Ternary? then n
    else
      var a0 := AsCommaOpArg(NodePtr(n.trueExpr));
      var a1 := AsCommaOpArg(NodePtr(n.falseExpr));
      if !(a0.NodePtr? && a0.node.Binary? && a1.NodePtr? && a1.node.Binary?) then n
      else
        var s0 := BranchAssignment(a0.node);
        var s1 := BranchAssignment(a1.node);
        if s0.NodePtr? && s1.NodePtr? && s0.node.op == s1.node.op && s0.node.left == s1.node.left then
          var v0 := BranchValue(a0.node, s0.node);
          var v1 := BranchValue(a1.node, s1.node);
          Binary(TypeOf(s0.node.left), s0.node.op, s0.node.left, Ternary(TypeOf(v0), n.cond, v0, v1))
        else n
  }

  /** Both rewrites, in the order the loop applies them to each statement. */
  function Rewrite(n: Node): Node {
    HoistAssignment(FoldIf(n))
  }

  // ---------------------------------------------------------------------
  // _flushCommas and the fold of one block (treeops-minify.cpp:128-180, 203-220)

  /** The left-associated chain `((p0, p1), p2), ...`. */
  function CommaChain(p: seq<Node>): Node
    requires p != []
  {
    if |p| == 1 then p[0]
    else Binary(TypeOf(p[|p| - 1]), Comma, CommaChain(p[..|p| - 1]), p[|p| - 1])
  }

  /** What `_flushCommas` returns: null, the one element, or the chain. */
  function FlushedCommas(p: seq<Node>): MaybeNode {
    if p == [] then NullNode else NodePtr(CommaChain(p))
  }

  /**
   * Which operand of the flushed chain the `return` shortcut inspects. The
   * code inspects the left operand; the comment beside it describes the last.
   */
  datatype ReturnRule = TestLeftOperand | TestLastOperand

  /** The flushed chain already ends in an assignment to the returned expression `e`. */
  predicate ShortcutApplies(rule: ReturnRule, flushed: Node, e: Node) {
    flushed.Binary? && flushed.op == Comma &&
    var operand := if rule == TestLeftOperand then flushed.left else flushed.right;
    operand.Binary? && IsAssignment(operand.op) && operand.left == e
  }

  /** Where flushed commas go in front of the non-foldable statement `n`. */
  function PlaceFlushed(rule: ReturnRule, flushed: Node, n: Node): seq<Node> {
    if n.Branch? && n.flow == Return && n.expr.NodePtr? then
      var e := n.expr.node;
      if Foldable(e) then
        if ShortcutApplies(rule, flushed, e) then [Branch(Return, NodePtr(flushed))]
        else [Branch(Return, NodePtr(Binary(TypeOf(e), Comma, flushed, e)))]
      else [flushed, n]
    else if n.IfElse? && Foldable(n.cond) then
      [IfElse(Binary(TypeOf(n.cond), Comma, flushed, n.cond), n.trueBlock, n.falseBlock)]
    else [flushed, n]
  }

  /** `newSequence` and `commaPending` during the loop. */
  datatype FoldState = FoldState(out: seq<Node>, pending: seq<Node>)

  /** One iteration of the loop of `visitBlock`: the statement is rewritten, then absorbed. */
  function Step(rule: ReturnRule, st: FoldState, node: Node): FoldState {
    Absorb(rule, st, Rewrite(node))
  }

  /** A rewritten statement joins the pending operands, or is emitted after flushing them. */
  function Absorb(rule: ReturnRule, st: FoldState, n: Node): FoldState {
    if Foldable(n) then FoldState(st.out, st.pending + [n])
    else if st.pending == [] then FoldState(st.out + [n], [])
    else FoldState(st.out + PlaceFlushed(rule, CommaChain(st.pending), n), [])
  }

  /** The loop state after the statements `s`. */
  function FoldPrefix(rule: ReturnRule, s: seq<Node>): FoldState {
    if s == [] then FoldState([], [])
    else Step(rule, FoldPrefix(rule, s[..|s| - 1]), s[|s| - 1])
  }

  /** The statement list `visitBlock` builds: the loop, then the commas still pending. */
  function FoldBlock(rule: ReturnRule, s: seq<Node>): seq<Node> {
    var st := FoldPrefix(rule, s);
    st.out + (if st.pending == [] then [] else [CommaChain(st.pending)])
  }

  // ---------------------------------------------------------------------
  // One traversal: children first, then the block itself (post-visit only).

  function Pass(rule: ReturnRule, n: Node): Node
    decreases n, 3
  {
    match n
    case Aggregate(ty, op, call, args) => Aggregate(ty, op, call, PassSeq(rule, args))
    case Swizzle(ty, operand, offsets) => Swizzle(ty, Pass(rule, operand), offsets)
    case Binary(ty, op, l, r) => Binary(ty, op, Pass(rule, l), Pass(rule, r))
    case Unary(ty, op, operand) => Unary(ty, op, Pass(rule, operand))
    case Ternary(ty, c, t, f) => Ternary(ty, Pass(rule, c), Pass(rule, t), Pass(rule, f))
    case Symbol(_, _, _) => n
    case ConstantUnion(_, _) => n
    case FunctionPrototype(_, _) => n
    case Block(s) => Block(PassBlock(rule, s))
    case IfElse(c, t, f) => IfElse(Pass(rule, c), PassMaybeBlock(rule, t), PassMaybeBlock(rule, f))
    case Loop(i, c, e, b) =>
      Loop(PassMaybeNode(rule, i), PassMaybeNode(rule, c), PassMaybeNode(rule, e), PassMaybeBlock(rule, b))
    case Switch(sel, b) => Switch(Pass(rule, sel), PassMaybeBlock(rule, b))
    case Case(l) => Case(PassMaybeNode(rule, l))
    case Branch(flow, e) => Branch(flow, PassMaybeNode(rule, e))
    case Declaration(ds) => Declaration(PassSeq(rule, ds))
    case GlobalQualifierDeclaration(sym) => GlobalQualifierDeclaration(Pass(rule, sym))
    case FunctionDefinition(p, b) => FunctionDefinition(Pass(rule, p), PassMaybeBlock(rule, b))
    case PreprocessorDirective(_) => n
  }

  function PassMaybeNode(rule: ReturnRule, m: MaybeNode): MaybeNode
    decreases m, 3
  {
    match m
    case NullNode => NullNode
    case NodePtr(n) => NodePtr(Pass(rule, n))
  }

  function PassMaybeBlock(rule: ReturnRule, b: MaybeBlock): MaybeBlock
    decreases b, 3
  {
    match b
    case NullBlock => NullBlock
    case BlockPtr(s) => BlockPtr(PassBlock(rule, s))
  }

  /** A block: its children are traversed, then `visitBlock` folds the result. */
  function PassBlock(rule: ReturnRule, s: seq<Node>): seq<Node>
    decreases s, 2
  {
    FoldBlock(rule, PassSeq(rule, s))
  }

  /** Children that are traversed but not folded (arguments, declarators). */
  function PassSeq(rule: ReturnRule, s: seq<Node>): (r: seq<Node>)
    ensures |r| == |s|
    decreases s, 1
  {
    if s == [] then []
    else PassSeq(rule, s[..|s| - 1]) + [Pass(rule, s[|s| - 1])]
  }

  // ---------------------------------------------------------------------
  // Size: every rewrite makes the tree strictly smaller.

  /** Number of nodes; each element of a child list weighs two more. */
  function Size(n: Node): nat
    decreases n, 1
  {
    match n
    case Aggregate(_, _, _, args) => 1 + SeqSize(args)
    case Swizzle(_, operand, _) => 1 + Size(operand)
    case Binary(_, _, l, r) => 1 + Size(l) + Size(r)
    case Unary(_, _, operand) => 1 + Size(operand)
    case Ternary(_, c, t, f) => 1 + Size(c) + Size(t) + Size(f)
    case Symbol(_, _, _) => 1
    case ConstantUnion(_, _) => 1
    case FunctionPrototype(_, _) => 1
    case Block(s) => 1 + SeqSize(s)
    case IfElse(c, t, f) => 1 + Size(c) + MaybeBlockSize(t) + MaybeBlockSize(f)
    case Loop(i, c, e, b) => 1 + MaybeNodeSize(i) + MaybeNodeSize(c) + MaybeNodeSize(e) + MaybeBlockSize(b)
    case Switch(sel, b) => 1 + Size(sel) + MaybeBlockSize(b)
    case Case(l) => 1 + MaybeNodeSize(l)
    case Branch(_, e) => 1 + MaybeNodeSize(e)
    case Declaration(ds) => 1 + SeqSize(ds)
    case GlobalQualifierDeclaration(sym) => 1 + Size(sym)
    case FunctionDefinition(p, b) => 1 + Size(p) + MaybeBlockSize(b)
    case PreprocessorDirective(_) => 1
  }

  function MaybeNodeSize(m: MaybeNode): nat
    decreases m, 1
  {
    match m
    case NullNode => 0
    case NodePtr(n) => Size(n)
  }

  function MaybeBlockSize(b: MaybeBlock): nat
    decreases b, 1
  {
    match b
    case NullBlock => 0
    case BlockPtr(s) => SeqSize(s)
  }

  function SeqSize(s: seq<Node>): nat
    decreases s, 0
  {
    if s == [] then 0 else SeqSize(s[..|s| - 1]) + Size(s[|s| - 1]) + 2
  }

  lemma {:induction false} SeqSizeAppend(a: seq<Node>, b: seq<Node>)
    ensures SeqSize(a + b) == SeqSize(a) + SeqSize(b)
    decreases |b|
  {
    if b == [] {
      assert a + b == a;
    } else {
      assert (a + b)[..|a + b| - 1] == a + b[..|b| - 1];
      SeqSizeAppend(a, b[..|b| - 1]);
    }
  }

  lemma {:induction false} MemberSize(s: seq<Node>, x: Node)
    requires x in s
    ensures Size(x) + 2 <= SeqSize(s)
    decreases |s|
  {
    if x != s[|s| - 1] {
      assert x in s[..|s| - 1] by {
        var k :| 0 <= k < |s| && s[k] == x;
        assert k < |s| - 1;
        assert s[..|s| - 1][k] == x;
      }
      MemberSize(s[..|s| - 1], x);
    }
  }

  lemma SingleNodeSize(b: MaybeBlock)
    requires BlockSingleNode(b).NodePtr?
    ensures b.BlockPtr? && Size(BlockSingleNode(b).node) + 2 <= SeqSize(b.stmts)
  {
    var s := b.stmts;
    assert BlockSingleNode(b).node in NonEmptyChildren(s);
    MemberSize(s, BlockSingleNode(b).node);
  }

  /** A rewrite either leaves the statement alone or makes it strictly smaller. */
  lemma RewriteShrinks(n: Node)
    ensures Rewrite(n) == n || Size(Rewrite(n)) < Size(n)
  {
    FoldIfShrinks(n);
    HoistShrinks(FoldIf(n));
  }

  lemma FoldIfShrinks(n: Node)
    ensures FoldIf(n) == n || Size(FoldIf(n)) < Size(n)
  {
    if FoldIf(n) != n {
      SingleNodeSize(n.trueBlock);
      if n.falseBlock.BlockPtr? {
        SingleNodeSize(n.falseBlock);
      }
    }
  }

  lemma HoistShrinks(n: Node)
    ensures HoistAssignment(n) == n || Size(HoistAssignment(n)) < Size(n)
  {
    if HoistAssignment(n) != n {
      var a0 := n.trueExpr;
      var a1 := n.falseExpr;
      var s0 := BranchAssignment(a0).node;
      var s1 := BranchAssignment(a1).node;
      BranchValueSize(a0, s0);
      BranchValueSize(a1, s1);
    }
  }

  /** Taking the assignment out of a branch drops its target and the assignment node. */
  lemma BranchValueSize(b: Node, assignment: Node)
    requires b.Binary? && BranchAssignment(b) == NodePtr(assignment)
    ensures Size(BranchValue(b, assignment)) + Size(assignment.left) + 1 == Size(b)
  {
  }

  /** Size of the chain: its elements, plus one per comma node. */
  lemma ChainSizeStep(p: seq<Node>, x: Node)
    requires p != []
    ensures Size(CommaChain(p + [x])) == Size(CommaChain(p)) + Size(x) + 1
  {
    assert (p + [x])[..|p + [x]| - 1] == p;
  }

  /** What the pending list will weigh once flushed as one statement. */
  function PendingCost(p: seq<Node>): nat {
    if p == [] then 0 else Size(CommaChain(p)) + 2
  }

  function Cost(st: FoldState): nat {
    SeqSize(st.out) + PendingCost(st.pending)
  }

  lemma SingletonSize(x: Node)
    ensures SeqSize([x]) == Size(x) + 2
  {
    assert [x][..0] == [];
  }

  lemma PlaceFlushedSize(rule: ReturnRule, flushed: Node, n: Node)
    ensures SeqSize(PlaceFlushed(rule, flushed, n)) <= Size(flushed) + Size(n) + 4
    ensures PlaceFlushed(rule, flushed, n) != [flushed, n] ==>
      SeqSize(PlaceFlushed(rule, flushed, n)) < Size(flushed) + Size(n) + 4
  {
    var placed := PlaceFlushed(rule, flushed, n);
    if placed == [flushed, n] {
      SeqSizeAppend([flushed], [n]);
      SingletonSize(flushed);
      SingletonSize(n);
    } else if n.Branch? {
      ReturnMergeSize(flushed, n);
    } else {
      IfMergeSize(flushed, n);
    }
  }

  lemma ReturnMergeSize(flushed: Node, n: Node)
    requires n.Branch? && n.expr.NodePtr?
    ensures SeqSize([Branch(Return, NodePtr(flushed))]) < Size(flushed) + Size(n) + 4
    ensures SeqSize([Branch(Return, NodePtr(Binary(TypeOf(n.expr.node), Comma, flushed, n.expr.node)))])
      < Size(flushed) + Size(n) + 4
  {
    ReturnShortcutSize(flushed, n);
    var e := n.expr.node;
    var c := Binary(TypeOf(e), Comma, flushed, e);
    SingletonSize(Branch(Return, NodePtr(c)));
    assert Size(c) == 1 + Size(flushed) + Size(e);
    assert Size(Branch(Return, NodePtr(c))) == 1 + Size(c);
    assert Size(n) == 1 + Size(e);
  }

  lemma ReturnShortcutSize(flushed: Node, n: Node)
    requires n.Branch? && n.expr.NodePtr?
    ensures SeqSize([Branch(Return, NodePtr(flushed))]) < Size(flushed) + Size(n) + 4
  {
    SingletonSize(Branch(Return, NodePtr(flushed)));
    assert Size(n) == 1 + Size(n.expr.node);
  }

  lemma IfMergeSize(flushed: Node, n: Node)
    requires n.IfElse?
    ensures SeqSize([IfElse(Binary(TypeOf(n.cond), Comma, flushed, n.cond), n.trueBlock, n.falseBlock)])
      < Size(flushed) + Size(n) + 4
  {
    var c := Binary(TypeOf(n.cond), Comma, flushed, n.cond);
    var m := IfElse(c, n.trueBlock, n.falseBlock);
    SingletonSize(m);
    assert Size(c) == 1 + Size(flushed) + Size(n.cond);
    assert Size(m) == 1 + Size(c) + MaybeBlockSize(n.trueBlock) + MaybeBlockSize(n.falseBlock);
    assert Size(n) == 1 + Size(n.cond) + MaybeBlockSize(n.trueBlock) + MaybeBlockSize(n.falseBlock);
  }

  /**
   * The loop never adds weight, and it keeps the weight only while it has
   * copied its input unchanged, holding back at most one statement.
   */
  lemma {:induction false} FoldPrefixCost(rule: ReturnRule, s: seq<Node>)
    ensures Cost(FoldPrefix(rule, s)) <= SeqSize(s)
    ensures Cost(FoldPrefix(rule, s)) == SeqSize(s) ==>
      FoldPrefix(rule, s).out + FoldPrefix(rule, s).pending == s && |FoldPrefix(rule, s).pending| <= 1
    decreases |s|
  {
    if s != [] {
      var prefix := s[..|s| - 1];
      var x := s[|s| - 1];
      assert s == prefix + [x];
      FoldPrefixCost(rule, prefix);
      StepCost(rule, FoldPrefix(rule, prefix), x);
      SeqSizeAppend(prefix, [x]);
      SingletonSize(x);
    }
  }

  /** One iteration adds at most the weight of its statement, and all of it only by copying it. */
  lemma StepCost(rule: ReturnRule, st: FoldState, x: Node)
    ensures Cost(Step(rule, st, x)) <= Cost(st) + Size(x) + 2
    ensures Cost(Step(rule, st, x)) == Cost(st) + Size(x) + 2 && |st.pending| <= 1 ==>
      Step(rule, st, x).out + Step(rule, st, x).pending == st.out + st.pending + [x] &&
      |Step(rule, st, x).pending| <= 1
  {
    RewriteShrinks(x);
    AbsorbCost(rule, st, Rewrite(x));
  }

  /** Absorbing a statement adds at most its weight, and all of it only by copying it. */
  lemma AbsorbCost(rule: ReturnRule, st: FoldState, n: Node)
    ensures Cost(Absorb(rule, st, n)) <= Cost(st) + Size(n) + 2
    ensures Cost(Absorb(rule, st, n)) == Cost(st) + Size(n) + 2 && |st.pending| <= 1 ==>
      Absorb(rule, st, n).out + Absorb(rule, st, n).pending == st.out + st.pending + [n] &&
      |Absorb(rule, st, n).pending| <= 1
  {
    if Foldable(n) {
      PendingCostBound(st, n);
    } else if st.pending == [] {
      EmittedCostBound(st, n);
    } else {
      FlushedCostBound(rule, st, n);
    }
  }

  /** `after` weighs at most `before` plus `n`, and all of that only when it copies `n` after `before`. */
  predicate CostBound(before: FoldState, n: Node, after: FoldState) {
    Cost(after) <= Cost(before) + Size(n) + 2 &&
    (Cost(after) == Cost(before) + Size(n) + 2 && |before.pending| <= 1 ==>
      after.out + after.pending == before.out + before.pending + [n] && |after.pending| <= 1)
  }

  lemma PendingCostBound(st: FoldState, n: Node)
    ensures CostBound(st, n, FoldState(st.out, st.pending + [n]))
  {
    PendingCostStep(st.pending, n);
    if st.pending == [] {
      assert st.out + (st.pending + [n]) == st.out + st.pending + [n];
    }
  }

  lemma EmittedCostBound(st: FoldState, n: Node)
    requires st.pending == []
    ensures CostBound(st, n, FoldState(st.out + [n], []))
  {
    SeqSizeAppend(st.out, [n]);
    SingletonSize(n);
    assert (st.out + [n]) + [] == st.out + st.pending + [n];
  }

  lemma FlushedCostBound(rule: ReturnRule, st: FoldState, n: Node)
    requires st.pending != []
    ensures CostBound(st, n, FoldState(st.out + PlaceFlushed(rule, CommaChain(st.pending), n), []))
  {
    var out := st.out + PlaceFlushed(rule, CommaChain(st.pending), n);
    FlushedCost(rule, st.out, st.pending, n);
    assert out + [] == out;
  }

  /** Joining the pending operands adds the operand and one comma; the first one adds its whole weight. */
  lemma PendingCostStep(pending: seq<Node>, n: Node)
    ensures PendingCost(pending + [n]) <= PendingCost(pending) + Size(n) + 2
    ensures PendingCost(pending + [n]) == PendingCost(pending) + Size(n) + 2 ==> pending == []
  {
    if pending == [] {
      assert pending + [n] == [n];
    } else {
      ChainSizeStep(pending, n);
    }
  }

  /** Flushing before a statement adds at most the weight of both, all of it only by emitting them side by side. */
  lemma FlushedCost(rule: ReturnRule, out: seq<Node>, pending: seq<Node>, n: Node)
    requires pending != []
    ensures SeqSize(out + PlaceFlushed(rule, CommaChain(pending), n)) <= SeqSize(out) + PendingCost(pending) + Size(n) + 2
    ensures (SeqSize(out + PlaceFlushed(rule, CommaChain(pending), n)) == SeqSize(out) + PendingCost(pending) + Size(n) + 2 &&
      |pending| <= 1) ==> out + PlaceFlushed(rule, CommaChain(pending), n) == out + pending + [n]
  {
    var flushed := CommaChain(pending);
    var placed := PlaceFlushed(rule, flushed, n);
    SeqSizeAppend(out, placed);
    PlaceFlushedSize(rule, flushed, n);
    if |pending| == 1 {
      assert flushed == pending[0];
      assert [flushed, n] == pending + [n];
    }
  }

  /** A fold either returns its input or a strictly lighter list. */
  lemma FoldBlockShrinks(rule: ReturnRule, s: seq<Node>)
    ensures FoldBlock(rule, s) == s || SeqSize(FoldBlock(rule, s)) < SeqSize(s)
  {
    FoldPrefixCost(rule, s);
    var st := FoldPrefix(rule, s);
    var tail := if st.pending == [] then [] else [CommaChain(st.pending)];
    assert FoldBlock(rule, s) == st.out + tail;
    SeqSizeAppend(st.out, tail);
    assert SeqSize(tail) == PendingCost(st.pending) by {
      if st.pending != [] {
        SingletonSize(CommaChain(st.pending));
      }
    }
    if SeqSize(FoldBlock(rule, s)) == SeqSize(s) {
      assert tail == st.pending;
    }
  }

  // ---------------------------------------------------------------------
  // A traversal either changes nothing or makes the tree strictly smaller.

  lemma {:induction false} PassShrinks(rule: ReturnRule, n: Node)
    ensures Size(Pass(rule, n)) <= Size(n)
    ensures Size(Pass(rule, n)) == Size(n) ==> Pass(rule, n) == n
    decreases n, 3
  {
    if IsTyped(n) {
      PassExpressionShrinks(rule, n);
    } else {
      PassStatementShrinks(rule, n);
    }
  }

  lemma {:induction false} PassExpressionShrinks(rule: ReturnRule, n: Node)
    requires IsTyped(n)
    ensures Size(Pass(rule, n)) <= Size(n)
    ensures Size(Pass(rule, n)) == Size(n) ==> Pass(rule, n) == n
    decreases n, 2
  {
    match n
    case Aggregate(_, _, _, _) => PassAggregateShrinks(rule, n);
    case Swizzle(_, _, _) => PassSwizzleShrinks(rule, n);
    case Binary(_, _, _, _) => PassBinaryShrinks(rule, n);
    case Unary(_, _, _) => PassUnaryShrinks(rule, n);
    case Ternary(_, _, _, _) => PassTernaryShrinks(rule, n);
    case Symbol(_, _, _) =>
    case ConstantUnion(_, _) =>
    case FunctionPrototype(_, _) =>
  }

  lemma {:induction false} PassStatementShrinks(rule: ReturnRule, n: Node)
    requires !IsTyped(n)
    ensures Size(Pass(rule, n)) <= Size(n)
    ensures Size(Pass(rule, n)) == Size(n) ==> Pass(rule, n) == n
    decreases n, 2
  {
    match n
    case Block(_) => PassBlockNodeShrinks(rule, n);
    case IfElse(_, _, _) => PassIfShrinks(rule, n);
    case Loop(_, _, _, _) => PassLoopShrinks(rule, n);
    case Switch(_, _) => PassSwitchShrinks(rule, n);
    case Case(_) => PassCaseShrinks(rule, n);
    case Branch(_, _) => PassBranchShrinks(rule, n);
    case Declaration(_) => PassDeclarationShrinks(rule, n);
    case GlobalQualifierDeclaration(_) => PassGlobalShrinks(rule, n);
    case FunctionDefinition(_, _) => PassFunctionShrinks(rule, n);
    case PreprocessorDirective(_) =>
  }

  /** A constructor or call: its arguments. */
  lemma {:induction false} PassAggregateShrinks(rule: ReturnRule, n: Node)
    requires n.Aggregate?
    ensures Size(Pass(rule, n)) <= Size(n)
    ensures Size(Pass(rule, n)) == Size(n) ==> Pass(rule, n) == n
    decreases n, 1
  {
    PassSeqShrinks(rule, n.args);
  }

  /** A swizzle: its operand. */
  lemma {:induction false} PassSwizzleShrinks(rule: ReturnRule, n: Node)
    requires n.Swizzle?
    ensures Size(Pass(rule, n)) <= Size(n)
    ensures Size(Pass(rule, n)) == Size(n) ==> Pass(rule, n) == n
    decreases n, 1
  {
    PassShrinks(rule, n.operand);
  }

  /** A unary operator: its operand. */
  lemma {:induction false} PassUnaryShrinks(rule: ReturnRule, n: Node)
    requires n.Unary?
    ensures Size(Pass(rule, n)) <= Size(n)
    ensures Size(Pass(rule, n)) == Size(n) ==> Pass(rule, n) == n
    decreases n, 1
  {
    PassShrinks(rule, n.operand);
  }

  /** A block: its statements, traversed and folded. */
  lemma {:induction false} PassBlockNodeShrinks(rule: ReturnRule, n: Node)
    requires n.Block?
    ensures Size(Pass(rule, n)) <= Size(n)
    ensures Size(Pass(rule, n)) == Size(n) ==> Pass(rule, n) == n
    decreases n, 1
  {
    PassBlockShrinks(rule, n.stmts);
  }

  /** A `case` label. */
  lemma {:induction false} PassCaseShrinks(rule: ReturnRule, n: Node)
    requires n.Case?
    ensures Size(Pass(rule, n)) <= Size(n)
    ensures Size(Pass(rule, n)) == Size(n) ==> Pass(rule, n) == n
    decreases n, 1
  {
    PassMaybeNodeShrinks(rule, n.caseLabel);
  }

  /** A `return`, `break`, `continue` or `discard`: its value if any. */
  lemma {:induction false} PassBranchShrinks(rule: ReturnRule, n: Node)
    requires n.Branch?
    ensures Size(Pass(rule, n)) <= Size(n)
    ensures Size(Pass(rule, n)) == Size(n) ==> Pass(rule, n) == n
    decreases n, 1
  {
    PassMaybeNodeShrinks(rule, n.expr);
  }

  /** A declaration: its declarators. */
  lemma {:induction false} PassDeclarationShrinks(rule: ReturnRule, n: Node)
    requires n.Declaration?
    ensures Size(Pass(rule, n)) <= Size(n)
    ensures Size(Pass(rule, n)) == Size(n) ==> Pass(rule, n) == n
    decreases n, 1
  {
    PassSeqShrinks(rule, n.decls);
  }

  /** A global qualifier declaration: its symbol. */
  lemma {:induction false} PassGlobalShrinks(rule: ReturnRule, n: Node)
    requires n.GlobalQualifierDeclaration?
    ensures Size(Pass(rule, n)) <= Size(n)
    ensures Size(Pass(rule, n)) == Size(n) ==> Pass(rule, n) == n
    decreases n, 1
  {
    PassShrinks(rule, n.symbol);
  }

  /** A binary operator: both operands. */
  lemma {:induction false} PassBinaryShrinks(rule: ReturnRule, n: Node)
    requires n.Binary?
    ensures Size(Pass(rule, n)) <= Size(n)
    ensures Size(Pass(rule, n)) == Size(n) ==> Pass(rule, n) == n
    decreases n, 1
  {
    PassShrinks(rule, n.left);
    PassShrinks(rule, n.right);
  }

  /** A `?:`: the condition and both values. */
  lemma {:induction false} PassTernaryShrinks(rule: ReturnRule, n: Node)
    requires n.Ternary?
    ensures Size(Pass(rule, n)) <= Size(n)
    ensures Size(Pass(rule, n)) == Size(n) ==> Pass(rule, n) == n
    decreases n, 1
  {
    PassShrinks(rule, n.cond);
    PassShrinks(rule, n.trueExpr);
    PassShrinks(rule, n.falseExpr);
  }

  /** A `switch`: the selector and the body. */
  lemma {:induction false} PassSwitchShrinks(rule: ReturnRule, n: Node)
    requires n.Switch?
    ensures Size(Pass(rule, n)) <= Size(n)
    ensures Size(Pass(rule, n)) == Size(n) ==> Pass(rule, n) == n
    decreases n, 1
  {
    PassShrinks(rule, n.selector);
    PassMaybeBlockShrinks(rule, n.body);
  }

  /** A function definition: the prototype and the body. */
  lemma {:induction false} PassFunctionShrinks(rule: ReturnRule, n: Node)
    requires n.FunctionDefinition?
    ensures Size(Pass(rule, n)) <= Size(n)
    ensures Size(Pass(rule, n)) == Size(n) ==> Pass(rule, n) == n
    decreases n, 1
  {
    PassShrinks(rule, n.prototype);
    PassMaybeBlockShrinks(rule, n.body);
  }

  /** An `if`: its condition and both branches. */
  lemma {:induction false} PassIfShrinks(rule: ReturnRule, n: Node)
    requires n.IfElse?
    ensures Size(Pass(rule, n)) <= Size(n)
    ensures Size(Pass(rule, n)) == Size(n) ==> Pass(rule, n) == n
    decreases n, 1
  {
    PassShrinks(rule, n.cond);
    PassMaybeBlockShrinks(rule, n.trueBlock);
    PassMaybeBlockShrinks(rule, n.falseBlock);
  }

  /** A loop: its initialiser, condition, step and body. */
  lemma {:induction false} PassLoopShrinks(rule: ReturnRule, n: Node)
    requires n.Loop?
    ensures Size(Pass(rule, n)) <= Size(n)
    ensures Size(Pass(rule, n)) == Size(n) ==> Pass(rule, n) == n
    decreases n, 1
  {
    PassMaybeNodeShrinks(rule, n.init);
    PassMaybeNodeShrinks(rule, n.test);
    PassMaybeNodeShrinks(rule, n.step);
    PassMaybeBlockShrinks(rule, n.body);
  }

  lemma {:induction false} PassMaybeNodeShrinks(rule: ReturnRule, m: MaybeNode)
    ensures MaybeNodeSize(PassMaybeNode(rule, m)) <= MaybeNodeSize(m)
    ensures MaybeNodeSize(PassMaybeNode(rule, m)) == MaybeNodeSize(m) ==> PassMaybeNode(rule, m) == m
    decreases m, 3
  {
    if m.NodePtr? {
      PassShrinks(rule, m.node);
    }
  }

  lemma {:induction false} PassMaybeBlockShrinks(rule: ReturnRule, b: MaybeBlock)
    ensures MaybeBlockSize(PassMaybeBlock(rule, b)) <= MaybeBlockSize(b)
    ensures MaybeBlockSize(PassMaybeBlock(rule, b)) == MaybeBlockSize(b) ==> PassMaybeBlock(rule, b) == b
    decreases b, 3
  {
    if b.BlockPtr? {
      PassBlockShrinks(rule, b.stmts);
    }
  }

  lemma {:induction false} PassBlockShrinks(rule: ReturnRule, s: seq<Node>)
    ensures SeqSize(PassBlock(rule, s)) <= SeqSize(s)
    ensures SeqSize(PassBlock(rule, s)) == SeqSize(s) ==> PassBlock(rule, s) == s
    decreases s, 2
  {
    PassSeqShrinks(rule, s);
    FoldBlockShrinks(rule, PassSeq(rule, s));
  }

  lemma {:induction false} PassSeqShrinks(rule: ReturnRule, s: seq<Node>)
    ensures SeqSize(PassSeq(rule, s)) <= SeqSize(s)
    ensures SeqSize(PassSeq(rule, s)) == SeqSize(s) ==> PassSeq(rule, s) == s
    decreases s, 1
  {
    if s != [] {
      var p, x := s[..|s| - 1], s[|s| - 1];
      assert s == p + [x];
      PassSeqShrinks(rule, p);
      PassShrinks(rule, x);
      PassSeqSnoc(rule, p, x);
      SeqSizeSnoc(p, x);
      SeqSizeSnoc(PassSeq(rule, p), Pass(rule, x));
    }
  }

  lemma PassSeqSnoc(rule: ReturnRule, p: seq<Node>, x: Node)
    ensures PassSeq(rule, p + [x]) == PassSeq(rule, p) + [Pass(rule, x)]
  {
    assert (p + [x])[..|p|] == p;
  }

  /** One more node adds its size and two for the separator. */
  lemma SeqSizeSnoc(p: seq<Node>, x: Node)
    ensures SeqSize(p + [x]) == SeqSize(p) + Size(x) + 2
  {
    assert (p + [x])[..|p|] == p;
  }

  /** A traversal that changes the tree makes it strictly smaller: the fixed-point loop ends. */
  lemma PassChangesShrink(rule: ReturnRule, n: Node)
    ensures Pass(rule, n) == n || Size(Pass(rule, n)) < Size(n)
  {
    PassShrinks(rule, n);
  }
}
