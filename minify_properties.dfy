// What the comma/ternary folding of tree-ops/treeops-minify.cpp preserves.
//
// A statement list is read as a trace of events: expressions evaluated for
// their side effects, branches on a value, and exits. Sequencing with the
// comma operator, `&&` and `?:` used as statements, and `if` statements all
// map onto the same events, so a rewrite between them that keeps the trace
// keeps what the shader does. Statements the pass never merges or moves are
// traced as themselves.

module CommaFoldingProperties {
  import opened AngleAst
  import opened NodeUtils
  import opened CommaFolding

  // ---------------------------------------------------------------------
  // The flushed chain

  /** Reads a left-associated comma chain of `k` operands back into its operands. */
  function Unchain(n: Node, k: nat): seq<Node>
    decreases k
  {
    if k <= 1 then [n]
    else if n.Binary? then Unchain(n.left, k - 1) + [n.right]
    else [n]
  }

  /** `_flushCommas` loses nothing: the chain reads back as the pending list, in order. */
  lemma {:induction false} ChainRoundTrip(p: seq<Node>)
    requires p != []
    ensures Unchain(CommaChain(p), |p|) == p
    decreases |p|
  {
    if |p| > 1 {
      ChainRoundTrip(p[..|p| - 1]);
      assert p == p[..|p| - 1] + [p[|p| - 1]];
    }
  }

  /** A chain of operands the comma operator accepts is itself one. */
  lemma {:induction false} ChainFoldable(p: seq<Node>)
    requires p != [] && forall i :: 0 <= i < |p| ==> Foldable(p[i])
    ensures Foldable(CommaChain(p))
    decreases |p|
  {
    if |p| > 1 {
      var last := p[|p| - 1];
      assert Foldable(last);
      assert IsCommaType(TypeOf(last));
    }
  }

  /** Neither rewrite touches a comma chain of statements it has already rewritten. */
  lemma ChainRewriteFixed(p: seq<Node>)
    requires p != [] && forall i :: 0 <= i < |p| ==> Rewrite(p[i]) == p[i]
    ensures Rewrite(CommaChain(p)) == CommaChain(p)
  {
    if |p| == 1 {
      assert Rewrite(p[0]) == p[0];
    }
  }

  // ---------------------------------------------------------------------
  // Rewrites of one statement

  /** Rewriting a rewritten statement changes nothing. */
  lemma RewriteIdempotent(x: Node)
    ensures Rewrite(Rewrite(x)) == Rewrite(x)
  {
    var y := FoldIf(x);
    var z := HoistAssignment(y);
    if z != y {
      assert z.Binary?;
    } else if y.IfElse? {
      assert y == x;
    }
  }

  /** Puts `target op` back in front of a branch value (after its comma prefix, if any). */
  function SinkInto(op: Op, target: Node, v: Node): Node {
    if v.Binary? && v.op == Comma then
      Binary(TypeOf(target), Comma, v.left, Binary(TypeOf(target), op, target, v.right))
    else Binary(TypeOf(target), op, target, v)
  }

  /** The inverse of the hoist: `x op (c ? v0 : v1)` back to `c ? (x op v0) : (x op v1)`. */
  function Sink(n: Node): Node {
    if n.Binary? && IsAssignment(n.op) && n.right.Ternary? then
      Ternary(TypeOf(n.left), n.right.cond,
              SinkInto(n.op, n.left, n.right.trueExpr), SinkInto(n.op, n.left, n.right.falseExpr))
    else n
  }

  /**
   * A ternary branch typed as ANGLE types it: an assignment has the type of
   * its target, a comma the type of its right operand. A branch that is a
   * plain assignment does not assign a comma expression.
   */
  predicate BranchTyped(b: Node) {
    (b.Binary? && IsAssignment(b.op) ==>
      b.ty == TypeOf(b.left) && !(b.right.Binary? && b.right.op == Comma)) &&
    (b.Binary? && b.op == Comma ==>
      b.ty == TypeOf(b.right) &&
      (b.right.Binary? && IsAssignment(b.right.op) ==> b.right.ty == TypeOf(b.right.left)))
  }

  /** The hoist loses nothing: sinking the assignment back into the branches restores the ternary. */
  lemma HoistRoundTrip(n: Node)
    requires n.Ternary? && n.ty == TypeOf(n.trueExpr)
    requires BranchTyped(n.trueExpr) && BranchTyped(n.falseExpr)
    ensures Sink(HoistAssignment(n)) == n
  {
  }

  // ---------------------------------------------------------------------
  // Traces

  datatype Event =
    | Eval(e: Node)                                              // evaluated for its side effects
    | Choice(value: Node, whenTrue: seq<Event>, whenFalse: seq<Event>)
    | Exit(flow: FlowOp, result: MaybeNode)
    | Opaque(stmt: Node)                                         // a statement the pass never merges

  /** A branch; one with nothing on either side and a pure condition does nothing. */
  function MkChoice(v: Node, whenTrue: seq<Event>, whenFalse: seq<Event>): seq<Event> {
    if whenTrue == [] && whenFalse == [] && !HasSideEffects(v) then []
    else [Choice(v, whenTrue, whenFalse)]
  }

  /** The events of an expression evaluated as a statement. */
  function Atoms(e: Node): seq<Event>
    decreases e, 1
  {
    if e.Binary? && e.op == Comma then Atoms(e.left) + Atoms(e.right)
    else if e.Binary? && e.op == LogicalAnd then
      SplitPre(e.left) + MkChoice(SplitValue(e.left), Atoms(e.right), [])
    else if e.Ternary? then
      SplitPre(e.cond) + MkChoice(SplitValue(e.cond), Atoms(e.trueExpr), Atoms(e.falseExpr))
    else if HasSideEffects(e) then [Eval(e)]
    else []
  }

  /** The events before an expression's value is taken: comma prefixes and a final assignment. */
  function SplitPre(e: Node): seq<Event>
    decreases e, 0
  {
    if e.Binary? && e.op == Comma then Atoms(e.left) + SplitPre(e.right)
    else if e.Binary? && IsAssignment(e.op) && !HasSideEffects(e.left) then [Eval(e)]
    else []
  }

  /** The expression whose value is taken after `SplitPre`; an assignment yields its target. */
  function SplitValue(e: Node): Node
    decreases e
  {
    if e.Binary? && e.op == Comma then SplitValue(e.right)
    else if e.Binary? && IsAssignment(e.op) && !HasSideEffects(e.left) then SplitValue(e.left)
    else e
  }

  function StmtTrace(n: Node): seq<Event>
    decreases n, 2
  {
    if Foldable(n) then Atoms(n)
    else match n
      case Block(s) => BlockTrace(s)
      case IfElse(c, t, f) =>
        SplitPre(c) + MkChoice(SplitValue(c), MaybeBlockTrace(t), MaybeBlockTrace(f))
      case Branch(flow, NodePtr(e)) => SplitPre(e) + [Exit(flow, NodePtr(SplitValue(e)))]
      case Branch(flow, NullNode) => [Exit(flow, NullNode)]
      case _ => [Opaque(n)]
  }

  function MaybeBlockTrace(b: MaybeBlock): seq<Event>
    decreases b, 3
  {
    match b
    case NullBlock => []
    case BlockPtr(s) => BlockTrace(s)
  }

  function BlockTrace(s: seq<Node>): seq<Event>
    decreases s, 3
  {
    if s == [] then [] else BlockTrace(s[..|s| - 1]) + StmtTrace(s[|s| - 1])
  }

  /** The events of the pending operands, in order. */
  function AtomsSeq(p: seq<Node>): seq<Event> {
    if p == [] then [] else AtomsSeq(p[..|p| - 1]) + Atoms(p[|p| - 1])
  }

  /** Each statement rewritten on its own, without any folding. */
  function MapRewrite(s: seq<Node>): (r: seq<Node>)
    ensures |r| == |s| && forall i :: 0 <= i < |s| ==> r[i] == Rewrite(s[i])
  {
    if s == [] then [] else MapRewrite(s[..|s| - 1]) + [Rewrite(s[|s| - 1])]
  }

  lemma {:induction false} BlockTraceAppend(a: seq<Node>, b: seq<Node>)
    ensures BlockTrace(a + b) == BlockTrace(a) + BlockTrace(b)
    decreases |b|
  {
    if b == [] {
      assert a + b == a;
    } else {
      var p, x := b[..|b| - 1], b[|b| - 1];
      calc {
        BlockTrace(a + b);
      ==  { assert a + b == (a + p) + [x]; BlockTraceSnoc(a + p, x); }
        BlockTrace(a + p) + StmtTrace(x);
      ==  { BlockTraceAppend(a, p); }
        (BlockTrace(a) + BlockTrace(p)) + StmtTrace(x);
      ==
        BlockTrace(a) + (BlockTrace(p) + StmtTrace(x));
      ==  { assert b == p + [x]; BlockTraceSnoc(p, x); }
        BlockTrace(a) + BlockTrace(b);
      }
    }
  }

  lemma BlockTraceSnoc(p: seq<Node>, x: Node)
    ensures BlockTrace(p + [x]) == BlockTrace(p) + StmtTrace(x)
  {
    assert (p + [x])[..|p|] == p;
  }

  lemma BlockTraceSingle(x: Node)
    ensures BlockTrace([x]) == StmtTrace(x)
  {
    assert [x][..0] == [];
  }

  lemma {:induction false} AtomsSeqAppend(p: seq<Node>, x: Node)
    ensures AtomsSeq(p + [x]) == AtomsSeq(p) + Atoms(x)
  {
    assert (p + [x])[..|p|] == p;
  }

  /** The chain's events are its operands' events. */
  lemma {:induction false} ChainAtoms(p: seq<Node>)
    requires p != []
    ensures Atoms(CommaChain(p)) == AtomsSeq(p)
    decreases |p|
  {
    if |p| == 1 {
      assert p[..0] == [];
    } else {
      ChainAtoms(p[..|p| - 1]);
    }
  }

  /** An expression without side effects has no events and yields a pure value. */
  lemma {:induction false} PureHasNoEvents(e: Node)
    requires !HasSideEffects(e)
    ensures Atoms(e) == [] && SplitPre(e) == [] && !HasSideEffects(SplitValue(e))
    decreases e
  {
    match e
    case Binary(_, op, l, r) =>
      PureHasNoEvents(l);
      PureHasNoEvents(r);
    case Ternary(_, c, t, f) =>
      PureHasNoEvents(c);
      PureHasNoEvents(t);
      PureHasNoEvents(f);
    case _ =>
  }

  // ---------------------------------------------------------------------
  // `if` to `?:` / `&&` keeps the trace

  lemma {:induction false} EmptyBlocksHaveNoEvents(s: seq<Node>)
    requires forall j :: 0 <= j < |s| ==> IsEmptyBlock(s[j])
    ensures BlockTrace(s) == []
    decreases |s|
  {
    if s != [] {
      EmptyBlocksHaveNoEvents(s[..|s| - 1]);
      assert IsEmptyBlock(s[|s| - 1]);
    }
  }

  /** A block with one non-empty statement has that statement's events. */
  lemma SingleStatementTrace(s: seq<Node>, k: int)
    requires OnlyNonEmptyChild(s, k)
    ensures BlockTrace(s) == StmtTrace(s[k])
  {
    assert s == s[..k] + [s[k]] + s[k + 1..];
    BlockTraceAppend(s[..k] + [s[k]], s[k + 1..]);
    BlockTraceAppend(s[..k], [s[k]]);
    BlockTraceSingle(s[k]);
    EmptyBlocksHaveNoEvents(s[..k]);
    EmptyBlocksHaveNoEvents(s[k + 1..]);
  }

  lemma SingleNodeTrace(b: MaybeBlock)
    requires BlockSingleNode(b).NodePtr?
    ensures MaybeBlockTrace(b) == StmtTrace(BlockSingleNode(b).node)
  {
    var k :| OnlyNonEmptyChild(b.stmts, k);
    SingleStatementTrace(b.stmts, k);
  }

  /** Turning an `if` into `?:` or `&&` keeps its events. */
  lemma FoldIfKeepsTrace(n: Node)
    ensures StmtTrace(FoldIf(n)) == StmtTrace(n)
  {
    if FoldIf(n) != n {
      IfTrace(n);
      var a0 := BlockSingleNode(n.trueBlock).node;
      SingleNodeTrace(n.trueBlock);
      assert StmtTrace(a0) == Atoms(a0) by {
        assert Foldable(a0);
      }
      if n.falseBlock.BlockPtr? {
        var a1 := BlockSingleNode(n.falseBlock).node;
        SingleNodeTrace(n.falseBlock);
        assert StmtTrace(a1) == Atoms(a1) by {
          assert Foldable(a1);
        }
        assert FoldIf(n) == Ternary(a0.ty, n.cond, a0, a1);
      } else {
        assert FoldIf(n) == Binary(ScalarBool, LogicalAnd, n.cond, a0);
      }
      assert Foldable(FoldIf(n));
    }
  }

  /** An `if` statement: the events before its condition's value, then the branch. */
  lemma IfTrace(n: Node)
    requires n.IfElse?
    ensures StmtTrace(n) ==
      SplitPre(n.cond) + MkChoice(SplitValue(n.cond), MaybeBlockTrace(n.trueBlock), MaybeBlockTrace(n.falseBlock))
  {
    assert !Foldable(n);
  }

  // ---------------------------------------------------------------------
  // Folding a block keeps its trace (with the shortcut testing the last operand)

  /** A `return` whose expression has no side effects. */
  predicate ReturnIsPure(n: Node) {
    n.Branch? && n.flow == Return && n.expr.NodePtr? ==> !HasSideEffects(n.expr.node)
  }

  predicate PureReturns(s: seq<Node>) {
    forall i :: 0 <= i < |s| ==> ReturnIsPure(s[i])
  }

  /** Placing a flushed chain in front of (or into) a statement keeps the events in order. */
  lemma PlaceFlushedTrace(flushed: Node, n: Node)
    requires Foldable(flushed) && !Foldable(n) && ReturnIsPure(n)
    ensures BlockTrace(PlaceFlushed(TestLastOperand, flushed, n)) == Atoms(flushed) + StmtTrace(n)
  {
    var placed := PlaceFlushed(TestLastOperand, flushed, n);
    if placed == [flushed, n] {
      BlockTraceAppend([flushed], [n]);
      BlockTraceSingle(flushed);
      BlockTraceSingle(n);
    } else {
      BlockTraceSingle(placed[0]);
      if n.Branch? {
        var e := n.expr.node;
        if ShortcutApplies(TestLastOperand, flushed, e) {
          ShortcutTrace(flushed, n);
        } else {
          ReturnMergeTrace(flushed, n);
        }
      } else {
        IfMergeTrace(flushed, n);
      }
    }
  }

  lemma ReturnMergeTrace(flushed: Node, n: Node)
    requires Foldable(flushed) && n.Branch? && n.flow == Return && n.expr.NodePtr?
    ensures StmtTrace(Branch(Return, NodePtr(Binary(TypeOf(n.expr.node), Comma, flushed, n.expr.node))))
      == Atoms(flushed) + StmtTrace(n)
  {
    var e := n.expr.node;
    var c := Binary(TypeOf(e), Comma, flushed, e);
    ReturnTrace(c);
    ReturnTrace(e);
    assert n == Branch(Return, NodePtr(e));
    assert SplitValue(c) == SplitValue(e);
    assert SplitPre(c) == Atoms(flushed) + SplitPre(e);
  }

  /** A `return` with a value: the events before its value, then the exit. */
  lemma ReturnTrace(e: Node)
    ensures StmtTrace(Branch(Return, NodePtr(e))) == SplitPre(e) + [Exit(Return, NodePtr(SplitValue(e)))]
  {
    assert !Foldable(Branch(Return, NodePtr(e)));
  }

  lemma ShortcutTrace(flushed: Node, n: Node)
    requires Foldable(flushed) && n.Branch? && n.flow == Return && n.expr.NodePtr?
    requires !HasSideEffects(n.expr.node)
    requires ShortcutApplies(TestLastOperand, flushed, n.expr.node)
    ensures StmtTrace(Branch(Return, NodePtr(flushed))) == Atoms(flushed) + StmtTrace(n)
  {
    var e := n.expr.node;
    PureHasNoEvents(e);
    var assignment := flushed.right;
    assert assignment.op != Comma && assignment.op != LogicalAnd;
    assert Atoms(assignment) == [Eval(assignment)];
    assert SplitPre(assignment) == [Eval(assignment)];
    assert SplitValue(assignment) == SplitValue(e);
    assert Atoms(flushed) == Atoms(flushed.left) + [Eval(assignment)];
    assert SplitPre(flushed) == Atoms(flushed.left) + [Eval(assignment)];
    assert SplitValue(flushed) == SplitValue(e);
    ReturnTrace(flushed);
    ReturnTrace(e);
    assert n == Branch(Return, NodePtr(e));
  }

  lemma IfMergeTrace(flushed: Node, n: Node)
    requires Foldable(flushed) && n.IfElse?
    ensures StmtTrace(IfElse(Binary(TypeOf(n.cond), Comma, flushed, n.cond), n.trueBlock, n.falseBlock))
      == Atoms(flushed) + StmtTrace(n)
  {
    var c := Binary(TypeOf(n.cond), Comma, flushed, n.cond);
    var choice := MkChoice(SplitValue(n.cond), MaybeBlockTrace(n.trueBlock), MaybeBlockTrace(n.falseBlock));
    calc {
      StmtTrace(IfElse(c, n.trueBlock, n.falseBlock));
    ==  { IfTrace(IfElse(c, n.trueBlock, n.falseBlock)); assert SplitValue(c) == SplitValue(n.cond); }
      SplitPre(c) + choice;
    ==  { assert SplitPre(c) == Atoms(flushed) + SplitPre(n.cond); }
      (Atoms(flushed) + SplitPre(n.cond)) + choice;
    ==
      Atoms(flushed) + (SplitPre(n.cond) + choice);
    ==  { IfTrace(n); }
      Atoms(flushed) + StmtTrace(n);
    }
  }

  predicate AllFoldable(p: seq<Node>) {
    forall i :: 0 <= i < |p| ==> Foldable(p[i])
  }

  /** The rewrites leave `return` statements alone and make none. */
  lemma RewriteKeepsReturns(x: Node)
    ensures Rewrite(x).Branch? ==> Rewrite(x) == x
  {
    var y := FoldIf(x);
    assert y.Branch? ==> y == x;
  }

  /** One iteration of the loop appends the events of the rewritten statement. */
  lemma StepTrace(st: FoldState, x: Node)
    requires ReturnIsPure(x) && AllFoldable(st.pending)
    ensures AllFoldable(Step(TestLastOperand, st, x).pending)
    ensures BlockTrace(Step(TestLastOperand, st, x).out) + AtomsSeq(Step(TestLastOperand, st, x).pending)
      == BlockTrace(st.out) + AtomsSeq(st.pending) + StmtTrace(Rewrite(x))
  {
    var n := Rewrite(x);
    var st' := Step(TestLastOperand, st, x);
    RewriteKeepsReturns(x);
    if Foldable(n) {
      assert st' == FoldState(st.out, st.pending + [n]);
      PendingTrace(st.out, st.pending, n);
    } else if st.pending == [] {
      assert st' == FoldState(st.out + [n], []);
      EmittedTrace(st.out, n);
    } else {
      assert st' == FoldState(st.out + PlaceFlushed(TestLastOperand, CommaChain(st.pending), n), []);
      FlushedTrace(st.out, st.pending, n);
    }
  }

  /** A foldable statement joining the pending ones adds its events after theirs. */
  lemma PendingTrace(out: seq<Node>, pending: seq<Node>, n: Node)
    requires Foldable(n)
    ensures BlockTrace(out) + AtomsSeq(pending + [n]) == BlockTrace(out) + AtomsSeq(pending) + StmtTrace(n)
  {
    AtomsSeqAppend(pending, n);
    assert StmtTrace(n) == Atoms(n);
  }

  /** A statement emitted with nothing pending adds its events to the output's. */
  lemma EmittedTrace(out: seq<Node>, n: Node)
    ensures BlockTrace(out + [n]) + AtomsSeq([]) == BlockTrace(out) + AtomsSeq([]) + StmtTrace(n)
  {
    BlockTraceSnoc(out, n);
  }

  /** Flushing the pending operands in front of a statement keeps their events, then the statement's. */
  lemma FlushedTrace(out: seq<Node>, pending: seq<Node>, n: Node)
    requires pending != [] && AllFoldable(pending) && !Foldable(n) && ReturnIsPure(n)
    ensures BlockTrace(out + PlaceFlushed(TestLastOperand, CommaChain(pending), n)) + AtomsSeq([])
      == BlockTrace(out) + AtomsSeq(pending) + StmtTrace(n)
  {
    var flushed := CommaChain(pending);
    var placed := PlaceFlushed(TestLastOperand, flushed, n);
    BlockTraceAppend(out, placed);
    ChainFoldable(pending);
    PlaceFlushedTrace(flushed, n);
    ChainAtoms(pending);
  }

  /**
   * The loop so far: the statements emitted, followed by the pending
   * operands, have the events of the statements read, each rewritten.
   */
  lemma {:induction false} FoldPrefixTrace(s: seq<Node>)
    requires PureReturns(s)
    ensures BlockTrace(FoldPrefix(TestLastOperand, s).out) + AtomsSeq(FoldPrefix(TestLastOperand, s).pending)
      == BlockTrace(MapRewrite(s))
    ensures AllFoldable(FoldPrefix(TestLastOperand, s).pending)
    decreases |s|
  {
    if s != [] {
      var prefix := s[..|s| - 1];
      var x := s[|s| - 1];
      assert PureReturns(prefix) by {
        assert forall i :: 0 <= i < |prefix| ==> prefix[i] == s[i];
      }
      FoldPrefixTrace(prefix);
      var st := FoldPrefix(TestLastOperand, prefix);
      StepTrace(st, x);
      var n := Rewrite(x);
      assert MapRewrite(s) == MapRewrite(prefix) + [n];
      BlockTraceAppend(MapRewrite(prefix), [n]);
      BlockTraceSingle(n);
    }
  }

  /**
   * With the shortcut testing the operand the comment describes, folding a
   * block gives the events of the block with each statement rewritten on
   * its own: merging statements into comma chains, `return`s and `if`
   * conditions keeps the same side effects in the same order, the same
   * branches and the same returned values. The per-statement hoist is not
   * covered by this trace (see `HoistRoundTrip`).
   */
  lemma FoldBlockKeepsTrace(s: seq<Node>)
    requires PureReturns(s)
    ensures BlockTrace(FoldBlock(TestLastOperand, s)) == BlockTrace(MapRewrite(s))
  {
    FoldPrefixTrace(s);
    var st := FoldPrefix(TestLastOperand, s);
    if st.pending != [] {
      BlockTraceAppend(st.out, [CommaChain(st.pending)]);
      BlockTraceSingle(CommaChain(st.pending));
      ChainFoldable(st.pending);
      ChainAtoms(st.pending);
    } else {
      assert st.out + [] == st.out;
    }
  }

  // The shortcut as written inspects the left operand of the flushed chain.

  const FloatScalar := Type(Float, 1, 1, [], [])
  const SymA := Symbol(FloatScalar, 1, None)
  const SymB := Symbol(FloatScalar, 2, None)
  const SetB := Binary(FloatScalar, Assign, SymB, ConstantUnion(FloatScalar, Some([FConst(2.0)])))
  const SetA := Binary(FloatScalar, Assign, SymA, ConstantUnion(FloatScalar, Some([FConst(1.0)])))
  const ReturnB := Branch(Return, NodePtr(SymB))
  const Merged := Branch(Return, NodePtr(Binary(FloatScalar, Comma, SetB, SetA)))

  lemma ExampleStatements()
    ensures Foldable(SetB) && Foldable(SetA) && !Foldable(ReturnB)
    ensures Rewrite(SetB) == SetB && Rewrite(SetA) == SetA && Rewrite(ReturnB) == ReturnB
    ensures ReturnIsPure(ReturnB)
  {
  }

  lemma ExamplePending()
    ensures FoldPrefix(TestLeftOperand, [SetB, SetA]) == FoldState([], [SetB, SetA])
  {
    ExampleStatements();
    assert [SetB, SetA][..1] == [SetB] && [SetB][..0] == [];
    assert FoldPrefix(TestLeftOperand, [SetB]) == FoldState([], [SetB]);
  }

  lemma ExampleFold()
    ensures FoldBlock(TestLeftOperand, [SetB, SetA, ReturnB]) == [Merged]
  {
    ExampleStatements();
    ExamplePending();
    ExampleFlushed();
    var s := [SetB, SetA, ReturnB];
    assert s[..2] == [SetB, SetA];
    assert FoldPrefix(TestLeftOperand, s) == FoldState([Merged], []);
  }

  /** The two pending assignments flushed in front of `return b` with the left-operand test. */
  lemma ExampleFlushed()
    ensures PlaceFlushed(TestLeftOperand, CommaChain([SetB, SetA]), ReturnB) == [Merged]
  {
    var flushed := CommaChain([SetB, SetA]);
    assert [SetB, SetA][..1] == [SetB];
    assert CommaChain([SetB]) == SetB;
    assert TypeOf(SetA) == FloatScalar;
    assert flushed == Binary(FloatScalar, Comma, SetB, SetA);
    assert ShortcutApplies(TestLeftOperand, flushed, SymB);
  }

  lemma ExampleStatementTraces()
    ensures BlockTrace([SetB]) == [Eval(SetB)] && BlockTrace([SetA]) == [Eval(SetA)]
    ensures BlockTrace([ReturnB]) == [Exit(Return, NodePtr(SymB))]
  {
    ExampleStatements();
    BlockTraceSingle(SetB);
    BlockTraceSingle(SetA);
    BlockTraceSingle(ReturnB);
  }

  lemma ExampleMergedTrace()
    ensures BlockTrace([Merged]) == [Eval(SetB), Eval(SetA), Exit(Return, NodePtr(SymA))]
  {
    var e := Binary(FloatScalar, Comma, SetB, SetA);
    BlockTraceSingle(Merged);
    ReturnTrace(e);
    ExampleEvents();
    assert SplitPre(e) == Atoms(SetB) + SplitPre(SetA);
    assert SplitValue(e) == SplitValue(SetA);
    calc {
      BlockTrace([Merged]);
      StmtTrace(Branch(Return, NodePtr(e)));
      SplitPre(e) + [Exit(Return, NodePtr(SplitValue(e)))];
      [Eval(SetB)] + [Eval(SetA)] + [Exit(Return, NodePtr(SymA))];
    }
  }

  /** Each assignment is one event; the second one's value is `a`. */
  lemma ExampleEvents()
    ensures Atoms(SetB) == [Eval(SetB)]
    ensures SplitPre(SetA) == [Eval(SetA)] && SplitValue(SetA) == SymA
  {
    assert HasSideEffects(SetB);
    assert !HasSideEffects(SymA);
  }

  lemma ExampleBlockTrace()
    ensures BlockTrace([SetB, SetA, ReturnB]) == [Eval(SetB), Eval(SetA), Exit(Return, NodePtr(SymB))]
  {
    ExampleStatementTraces();
    BlockTraceAppend([SetB, SetA], [ReturnB]);
    BlockTraceAppend([SetB], [SetA]);
    assert [SetB, SetA] + [ReturnB] == [SetB, SetA, ReturnB];
    assert [SetB] + [SetA] == [SetB, SetA];
  }

  lemma ExampleUnfoldedTrace()
    ensures BlockTrace(MapRewrite([SetB, SetA, ReturnB])) == [Eval(SetB), Eval(SetA), Exit(Return, NodePtr(SymB))]
  {
    ExampleStatements();
    assert MapRewrite([SetB, SetA, ReturnB]) == [SetB, SetA, ReturnB];
    ExampleBlockTrace();
  }

  /**
   * `b = 2.0; a = 1.0; return b;` becomes `return (b = 2.0, a = 1.0);`,
   * which returns `a`: testing the left operand changes the returned value.
   */
  lemma LeftOperandShortcutChangesResult()
    ensures PureReturns([SetB, SetA, ReturnB])
    ensures FoldBlock(TestLeftOperand, [SetB, SetA, ReturnB]) == [Merged]
    ensures BlockTrace(MapRewrite([SetB, SetA, ReturnB])) == [Eval(SetB), Eval(SetA), Exit(Return, NodePtr(SymB))]
    ensures BlockTrace(FoldBlock(TestLeftOperand, [SetB, SetA, ReturnB]))
      == [Eval(SetB), Eval(SetA), Exit(Return, NodePtr(SymA))]
  {
    ExampleStatements();
    ExampleFold();
    ExampleUnfoldedTrace();
    ExampleMergedTrace();
    ExamplePureReturns();
  }

  lemma ExamplePureReturns()
    ensures PureReturns([SetB, SetA, ReturnB])
  {
    var s := [SetB, SetA, ReturnB];
    ExampleStatements();
    assert ReturnIsPure(SetB) && ReturnIsPure(SetA);
    forall i | 0 <= i < |s| ensures ReturnIsPure(s[i]) {
      assert s[i] == SetB || s[i] == SetA || s[i] == ReturnB;
    }
  }

  /** The same block, folded as the comment intends, keeps returning `b`. */
  lemma LastOperandShortcutKeepsResult()
    ensures BlockTrace(FoldBlock(TestLastOperand, [SetB, SetA, ReturnB]))
      == [Eval(SetB), Eval(SetA), Exit(Return, NodePtr(SymB))]
  {
    LeftOperandShortcutChangesResult();
    FoldBlockKeepsTrace([SetB, SetA, ReturnB]);
  }

  // ---------------------------------------------------------------------
  // Shape of the result

  /** No two consecutive statements could still be joined by a comma. */
  predicate NoAdjacentFoldable(s: seq<Node>) {
    forall k :: 0 <= k < |s| - 1 ==> !(Foldable(s[k]) && Foldable(s[k + 1]))
  }

  /** Emitted statements never end in a foldable one; pending ones are all foldable. */
  predicate Separated(st: FoldState) {
    NoAdjacentFoldable(st.out) &&
    (st.out != [] ==> !Foldable(st.out[|st.out| - 1])) &&
    AllFoldable(st.pending)
  }

  lemma NoAdjacentAppend(a: seq<Node>, b: seq<Node>)
    requires NoAdjacentFoldable(a) && NoAdjacentFoldable(b)
    requires a != [] ==> !Foldable(a[|a| - 1])
    ensures NoAdjacentFoldable(a + b)
  {
    var r := a + b;
    forall k | 0 <= k < |r| - 1
      ensures !(Foldable(r[k]) && Foldable(r[k + 1]))
    {
      if k + 1 < |a| {
        assert r[k] == a[k] && r[k + 1] == a[k + 1];
      } else if k + 1 == |a| {
        assert r[k] == a[|a| - 1];
      } else {
        assert r[k] == b[k - |a|] && r[k + 1] == b[k + 1 - |a|];
      }
    }
  }

  /** The flushed chain goes in front of the statement, or into it; either way the statement ends the piece. */
  lemma PlaceFlushedShape(rule: ReturnRule, c: Node, n: Node)
    requires Foldable(c) && !Foldable(n)
    ensures NoAdjacentFoldable(PlaceFlushed(rule, c, n))
    ensures PlaceFlushed(rule, c, n) != []
    ensures !Foldable(PlaceFlushed(rule, c, n)[|PlaceFlushed(rule, c, n)| - 1])
  {
  }

  lemma StepSeparates(rule: ReturnRule, st: FoldState, x: Node)
    requires Separated(st)
    ensures Separated(Step(rule, st, x))
  {
    AbsorbSeparates(rule, st, Rewrite(x));
  }

  lemma AbsorbSeparates(rule: ReturnRule, st: FoldState, n: Node)
    requires Separated(st)
    ensures Separated(Absorb(rule, st, n))
  {
    if Foldable(n) {
      PendingSeparates(st, n);
    } else if st.pending == [] {
      EmittedSeparates(st.out, [n]);
    } else {
      var placed := PlaceFlushed(rule, CommaChain(st.pending), n);
      ChainFoldable(st.pending);
      PlaceFlushedShape(rule, CommaChain(st.pending), n);
      EmittedSeparates(st.out, placed);
    }
  }

  /** A foldable statement joining the pending ones keeps the state separated. */
  lemma PendingSeparates(st: FoldState, n: Node)
    requires Separated(st) && Foldable(n)
    ensures Separated(FoldState(st.out, st.pending + [n]))
  {
  }

  /** Statements emitted after a separated output, themselves separated and ending in one that is not foldable. */
  lemma EmittedSeparates(out: seq<Node>, b: seq<Node>)
    requires NoAdjacentFoldable(out) && (out != [] ==> !Foldable(out[|out| - 1]))
    requires NoAdjacentFoldable(b) && b != [] && !Foldable(b[|b| - 1])
    ensures Separated(FoldState(out + b, []))
  {
    NoAdjacentAppend(out, b);
    assert (out + b)[|out + b| - 1] == b[|b| - 1];
  }

  lemma {:induction false} FoldPrefixSeparates(rule: ReturnRule, s: seq<Node>)
    ensures Separated(FoldPrefix(rule, s))
    decreases |s|
  {
    if s != [] {
      FoldPrefixSeparates(rule, s[..|s| - 1]);
      StepSeparates(rule, FoldPrefix(rule, s[..|s| - 1]), s[|s| - 1]);
    }
  }

  /** After folding, no two consecutive statements could still be joined by a comma. */
  lemma FoldBlockSeparates(rule: ReturnRule, s: seq<Node>)
    ensures NoAdjacentFoldable(FoldBlock(rule, s))
  {
    FoldPrefixSeparates(rule, s);
    var st := FoldPrefix(rule, s);
    if st.pending == [] {
      assert FoldBlock(rule, s) == st.out;
    } else {
      NoAdjacentAppend(st.out, [CommaChain(st.pending)]);
    }
  }

  // ---------------------------------------------------------------------
  // A second fold of the same block changes nothing

  /** The emitted statements are a fixed point of the loop; the pending ones are rewritten operands. */
  predicate Stable(rule: ReturnRule, st: FoldState) {
    FoldPrefix(rule, st.out) == FoldState(st.out, []) &&
    forall i :: 0 <= i < |st.pending| ==> Foldable(st.pending[i]) && Rewrite(st.pending[i]) == st.pending[i]
  }

  lemma StableAppend(rule: ReturnRule, out: seq<Node>, n: Node)
    requires FoldPrefix(rule, out) == FoldState(out, [])
    requires Rewrite(n) == n
    ensures FoldPrefix(rule, out + [n]) ==
      if Foldable(n) then FoldState(out, [n]) else FoldState(out + [n], [])
  {
    assert (out + [n])[..|out|] == out;
  }

  /** An `if` the rewrites left alone stays alone whatever its condition becomes. */
  lemma MergedIfFixed(n: Node, c: Node)
    requires n.IfElse? && Rewrite(n) == n
    ensures Rewrite(IfElse(c, n.trueBlock, n.falseBlock)) == IfElse(c, n.trueBlock, n.falseBlock)
  {
  }

  lemma StepStable(rule: ReturnRule, st: FoldState, x: Node)
    requires Stable(rule, st)
    ensures Stable(rule, Step(rule, st, x))
  {
    var n := Rewrite(x);
    RewriteIdempotent(x);
    if Foldable(n) {
    } else if st.pending == [] {
      StableAppend(rule, st.out, n);
    } else {
      ChainFoldable(st.pending);
      ChainRewriteFixed(st.pending);
      PlacedStable(rule, st.out, CommaChain(st.pending), n);
    }
  }

  lemma PlacedStable(rule: ReturnRule, out: seq<Node>, c: Node, n: Node)
    requires FoldPrefix(rule, out) == FoldState(out, [])
    requires Foldable(c) && Rewrite(c) == c && !Foldable(n) && Rewrite(n) == n
    ensures FoldPrefix(rule, out + PlaceFlushed(rule, c, n)) == FoldState(out + PlaceFlushed(rule, c, n), [])
  {
    var placed := PlaceFlushed(rule, c, n);
    if placed == [c, n] {
      PairStable(rule, out, c, n);
    } else {
      var m := placed[0];
      assert placed == [m];
      if n.IfElse? {
        MergedIfFixed(n, m.cond);
      }
      assert Rewrite(m) == m && !Foldable(m);
      StableAppend(rule, out, m);
    }
  }

  /** A chain left in front of the statement is read back as one pending operand, then placed again. */
  lemma PairStable(rule: ReturnRule, out: seq<Node>, c: Node, n: Node)
    requires FoldPrefix(rule, out) == FoldState(out, [])
    requires Foldable(c) && Rewrite(c) == c && !Foldable(n) && Rewrite(n) == n
    requires PlaceFlushed(rule, c, n) == [c, n]
    ensures FoldPrefix(rule, out + [c, n]) == FoldState(out + [c, n], [])
  {
    StableAppend(rule, out, c);
    assert (out + [c, n])[..|out| + 1] == out + [c];
    assert CommaChain([c]) == c;
    assert FoldPrefix(rule, out + [c, n]) == Step(rule, FoldState(out, [c]), n);
    assert out + [c] + [n] == out + [c, n];
  }

  lemma {:induction false} FoldPrefixStable(rule: ReturnRule, s: seq<Node>)
    ensures Stable(rule, FoldPrefix(rule, s))
    decreases |s|
  {
    if s != [] {
      FoldPrefixStable(rule, s[..|s| - 1]);
      StepStable(rule, FoldPrefix(rule, s[..|s| - 1]), s[|s| - 1]);
    }
  }

  /** Folding a folded block changes nothing. */
  lemma FoldBlockIdempotent(rule: ReturnRule, s: seq<Node>)
    ensures FoldBlock(rule, FoldBlock(rule, s)) == FoldBlock(rule, s)
  {
    FoldPrefixStable(rule, s);
    var st := FoldPrefix(rule, s);
    if st.pending == [] {
      assert FoldBlock(rule, s) == st.out;
    } else {
      var c := CommaChain(st.pending);
      ChainFoldable(st.pending);
      ChainRewriteFixed(st.pending);
      StableAppend(rule, st.out, c);
      assert CommaChain([c]) == c;
    }
  }

  // ---------------------------------------------------------------------
  // Statements that are not folded keep their order, under either rule

  /** The statements of `s` that cannot become comma operands, in order. */
  function NonFoldable(s: seq<Node>): (r: seq<Node>)
    ensures |r| <= |s|
  {
    if s == [] then []
    else NonFoldable(s[..|s| - 1]) + (if Foldable(s[|s| - 1]) then [] else [s[|s| - 1]])
  }

  lemma {:induction false} NonFoldableAppend(a: seq<Node>, b: seq<Node>)
    ensures NonFoldable(a + b) == NonFoldable(a) + NonFoldable(b)
    decreases |b|
  {
    if b == [] {
      assert a + b == a;
    } else {
      var init := b[..|b| - 1];
      NonFoldableAppend(a, init);
      assert (a + b)[..|a + b| - 1] == a + init;
    }
  }

  /**
   * `m` stands where `n` stood: it is `n` itself, a `return` of a value
   * that became a comma expression, or the same `if` whose condition
   * became a comma expression ending in the old condition.
   */
  predicate Carries(n: Node, m: Node) {
    m == n ||
    (n.Branch? && n.flow == Return && n.expr.NodePtr? &&
     m.Branch? && m.flow == Return && m.expr.NodePtr? && m.expr.node.Binary? && m.expr.node.op == Comma) ||
    (n.IfElse? && m.IfElse? && m.trueBlock == n.trueBlock && m.falseBlock == n.falseBlock &&
     m.cond.Binary? && m.cond.op == Comma && m.cond.right == n.cond)
  }

  /** Position by position, each statement of `b` stands where the one of `a` stood. */
  predicate CarriesAll(a: seq<Node>, b: seq<Node>) {
    |a| == |b| && forall k :: 0 <= k < |a| ==> Carries(a[k], b[k])
  }

  lemma CarriesAllAppend(a: seq<Node>, b: seq<Node>, n: Node, m: Node)
    requires CarriesAll(a, b) && Carries(n, m)
    ensures CarriesAll(a + [n], b + [m])
  {
  }

  lemma NonFoldableSnoc(a: seq<Node>, n: Node)
    ensures NonFoldable(a + [n]) == NonFoldable(a) + (if Foldable(n) then [] else [n])
  {
    assert (a + [n])[..|a|] == a;
  }

  lemma NonFoldableOne(m: Node)
    requires !Foldable(m)
    ensures NonFoldable([m]) == [m]
  {
    NonFoldableSnoc([], m);
    assert [] + [m] == [m];
  }

  lemma NonFoldablePair(c: Node, n: Node)
    requires Foldable(c) && !Foldable(n)
    ensures NonFoldable([c, n]) == [n]
  {
    NonFoldableSnoc([], c);
    assert [] + [c] == [c];
    NonFoldableSnoc([c], n);
    assert [c] + [n] == [c, n];
  }

  /** Placing flushed commas in front of `n` leaves one statement that is not foldable, and it carries `n`. */
  lemma PlaceFlushedCarries(rule: ReturnRule, c: Node, n: Node)
    requires Foldable(c) && !Foldable(n)
    ensures |NonFoldable(PlaceFlushed(rule, c, n))| == 1
    ensures Carries(n, NonFoldable(PlaceFlushed(rule, c, n))[0])
  {
    var placed := PlaceFlushed(rule, c, n);
    if n.Branch? && n.flow == Return && n.expr.NodePtr? && Foldable(n.expr.node) {
      ReturnPlacedCarries(rule, c, n);
    } else if n.IfElse? && Foldable(n.cond) {
      var m := IfElse(Binary(TypeOf(n.cond), Comma, c, n.cond), n.trueBlock, n.falseBlock);
      assert placed == [m];
      NonFoldableOne(m);
    } else {
      assert placed == [c, n];
      NonFoldablePair(c, n);
    }
  }

  lemma ReturnPlacedCarries(rule: ReturnRule, c: Node, n: Node)
    requires Foldable(c) && n.Branch? && n.flow == Return && n.expr.NodePtr? && Foldable(n.expr.node)
    ensures |NonFoldable(PlaceFlushed(rule, c, n))| == 1
    ensures Carries(n, NonFoldable(PlaceFlushed(rule, c, n))[0])
  {
    var e := n.expr.node;
    var m := if ShortcutApplies(rule, c, e) then Branch(Return, NodePtr(c))
             else Branch(Return, NodePtr(Binary(TypeOf(e), Comma, c, e)));
    assert PlaceFlushed(rule, c, n) == [m];
    NonFoldableOne(m);
  }

  /** One iteration: the statements emitted so far carry the rewritten statements read so far. */
  lemma AbsorbCarries(rule: ReturnRule, st: FoldState, read: seq<Node>, n: Node)
    requires CarriesAll(NonFoldable(read), NonFoldable(st.out)) && AllFoldable(st.pending)
    ensures CarriesAll(NonFoldable(read + [n]), NonFoldable(Absorb(rule, st, n).out))
    ensures AllFoldable(Absorb(rule, st, n).pending)
  {
    NonFoldableSnoc(read, n);
    if Foldable(n) {
      assert NonFoldable(read + [n]) == NonFoldable(read);
      assert Absorb(rule, st, n).out == st.out;
    } else if st.pending == [] {
      EmittedCarries(st.out, read, n);
      assert Absorb(rule, st, n) == FoldState(st.out + [n], []);
    } else {
      PlacedCarries(rule, st.out, st.pending, read, n);
      assert Absorb(rule, st, n) == FoldState(st.out + PlaceFlushed(rule, CommaChain(st.pending), n), []);
    }
  }

  lemma EmittedCarries(out: seq<Node>, read: seq<Node>, n: Node)
    requires CarriesAll(NonFoldable(read), NonFoldable(out)) && !Foldable(n)
    ensures CarriesAll(NonFoldable(read) + [n], NonFoldable(out + [n]))
  {
    NonFoldableSnoc(out, n);
    CarriesAllAppend(NonFoldable(read), NonFoldable(out), n, n);
  }

  lemma PlacedCarries(rule: ReturnRule, out: seq<Node>, pending: seq<Node>, read: seq<Node>, n: Node)
    requires CarriesAll(NonFoldable(read), NonFoldable(out)) && AllFoldable(pending)
    requires pending != [] && !Foldable(n)
    ensures CarriesAll(NonFoldable(read) + [n], NonFoldable(out + PlaceFlushed(rule, CommaChain(pending), n)))
  {
    var c := CommaChain(pending);
    ChainFoldable(pending);
    PlaceFlushedCarries(rule, c, n);
    var placed := PlaceFlushed(rule, c, n);
    NonFoldableAppend(out, placed);
    var m := NonFoldable(placed)[0];
    assert NonFoldable(placed) == [m];
    CarriesAllAppend(NonFoldable(read), NonFoldable(out), n, m);
  }

  lemma {:induction false} FoldPrefixCarries(rule: ReturnRule, s: seq<Node>)
    ensures CarriesAll(NonFoldable(MapRewrite(s)), NonFoldable(FoldPrefix(rule, s).out))
    ensures AllFoldable(FoldPrefix(rule, s).pending)
    decreases |s|
  {
    if s != [] {
      var prefix := s[..|s| - 1];
      FoldPrefixCarries(rule, prefix);
      assert MapRewrite(s) == MapRewrite(prefix) + [Rewrite(s[|s| - 1])];
      AbsorbCarries(rule, FoldPrefix(rule, prefix), MapRewrite(prefix), Rewrite(s[|s| - 1]));
    }
  }

  /**
   * Under either `return` rule, the statements of the folded block that are
   * not comma operands are those of the block with each statement
   * rewritten on its own, one to one and in the same order: each is the
   * same statement, or the same `return` or `if` with the flushed commas
   * merged into its value or condition.
   */
  lemma FoldBlockKeepsOrder(rule: ReturnRule, s: seq<Node>)
    ensures CarriesAll(NonFoldable(MapRewrite(s)), NonFoldable(FoldBlock(rule, s)))
  {
    FoldPrefixCarries(rule, s);
    var st := FoldPrefix(rule, s);
    if st.pending != [] {
      var c := CommaChain(st.pending);
      ChainFoldable(st.pending);
      NonFoldableAppend(st.out, [c]);
      assert [c][..0] == [];
      assert NonFoldable([c]) == [];
      assert st.out + [] == st.out;
    } else {
      assert FoldBlock(rule, s) == st.out;
    }
  }
}
