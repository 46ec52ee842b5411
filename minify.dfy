// tree-ops/treeops-minify.cpp as imperative code: `_flushCommas`, the
// traverser whose `visitBlock` rebuilds each block and raises `hasChanges`,
// and the driver that re-runs the traversal until nothing changes.
//
// The tree is a value: a block whose children ANGLE replaces in place is
// returned rebuilt, and a changed child is returned inside its rebuilt parent.

module TreeOpsMinify {
  import opened AngleAst
  import opened NodeUtils
  import opened CommaFolding

  /** `_flushCommas`: null, the single pending operand, or all of them as one left-associated chain. */
  method FlushCommas(commaPending: seq<Node>) returns (r: MaybeNode)
    ensures r == FlushedCommas(commaPending)
  {
    if |commaPending| == 0 {
      return NullNode;
    }
    if |commaPending| == 1 {
      return NodePtr(commaPending[0]);
    }
    var commaLeft := commaPending[0];
    var i := 1;
    assert commaPending[..1] == [commaPending[0]];
    while i < |commaPending|
      invariant 1 <= i <= |commaPending|
      invariant commaLeft == CommaChain(commaPending[..i])
    {
      commaLeft := Binary(TypeOf(commaPending[i]), Comma, commaLeft, commaPending[i]);
      i := i + 1;
      assert commaPending[..i][..i - 1] == commaPending[..i - 1];
    }
    assert commaPending[..i] == commaPending;
    return NodePtr(commaLeft);
  }

  /** `SpglslPutCommaOperatorTraverser`: visits blocks after their children. */
  class CommaOperatorTraverser {
    var hasChanges: bool
    /** Which operand of the flushed chain the `return` shortcut inspects. */
    const rule: ReturnRule

    constructor(rule: ReturnRule)
      ensures this.rule == rule && !hasChanges
    {
      this.rule := rule;
      hasChanges := false;
    }

    /** The `if` to `?:` / `&&` rewrite at the head of the loop body. */
    method RewriteIf(node: Node) returns (r: Node)
      ensures r == FoldIf(node)
    {
      r := node;
      if node.IfElse? {
        var single0 := NodeGetBlockSingleNode(node.trueBlock);
        var a0 := AsCommaOpArg(single0);
        if a0.NodePtr? {
          if node.falseBlock.BlockPtr? {
            var single1 := NodeGetBlockSingleNode(node.falseBlock);
            var a1 := AsCommaOpArg(single1);
            if a1.NodePtr? && a0.node.ty == a1.node.ty {
              r := Ternary(a0.node.ty, node.cond, a0.node, a1.node);
            }
          } else if IsScalarBool(a0.node.ty) {
            r := Binary(ScalarBool, LogicalAnd, node.cond, a0.node);
          }
        }
      }
    }

    /** The ternary assignment hoist that follows it. */
    method RewriteTernary(node: Node) returns (r: Node)
      ensures r == HoistAssignment(node)
    {
      r := node;
      if node.Ternary? {
        var a0 := AsCommaOpArg(NodePtr(node.trueExpr));
        var a1 := AsCommaOpArg(NodePtr(node.falseExpr));
        if a0.NodePtr? && a0.node.Binary? && a1.NodePtr? && a1.node.Binary? {
          var a0bin := a0.node;
          var a1bin := a1.node;
          var a0Assignment := BranchAssignment(a0bin);
          var a1Assignment := BranchAssignment(a1bin);
          if a0Assignment.NodePtr? && a1Assignment.NodePtr? &&
             a0Assignment.node.op == a1Assignment.node.op &&
             a0Assignment.node.left == a1Assignment.node.left
          {
            var a0new := if a0bin.op == Comma
              then Binary(TypeOf(a0Assignment.node.right), Comma, a0bin.left, a0Assignment.node.right)
              else a0Assignment.node.right;
            var a1new := if a1bin.op == Comma
              then Binary(TypeOf(a1Assignment.node.right), Comma, a1bin.left, a1Assignment.node.right)
              else a1Assignment.node.right;
            var target := a0Assignment.node.left;
            r := Binary(TypeOf(target), a0Assignment.node.op, target, Ternary(TypeOf(a0new), node.cond, a0new, a1new));
          }
        }
      }
    }

    /**
     * The part of the loop body of `visitBlock` that places the flushed comma
     * chain `flushed` in front of the statement `node`: into its `return`,
     * into its `if` condition, or as a statement of its own.
     */
    method PlaceCommas(flushed: Node, node: Node) returns (placed: seq<Node>)
      ensures placed == PlaceFlushed(rule, flushed, node)
    {
      var n := node;
      placed := [];
      if n.Branch? && n.flow == Return && n.expr.NodePtr? {
        if AsCommaOpArg(n.expr).NodePtr? {
          var nodeMade := false;
          if flushed.Binary? && flushed.op == Comma {
            var operand := if rule == TestLeftOperand then flushed.left else flushed.right;
            if operand.Binary? && IsAssignment(operand.op) && operand.left == n.expr.node {
              n := Branch(Return, NodePtr(flushed));
              nodeMade := true;
            }
          }
          if !nodeMade {
            n := Branch(Return, NodePtr(Binary(TypeOf(n.expr.node), Comma, flushed, n.expr.node)));
          }
        } else {
          placed := [flushed];
        }
      } else if n.IfElse? {
        if AsCommaOpArg(NodePtr(n.cond)).NodePtr? {
          n := IfElse(Binary(TypeOf(n.cond), Comma, flushed, n.cond), n.trueBlock, n.falseBlock);
        } else {
          placed := [flushed];
        }
      } else {
        placed := [flushed];
      }
      placed := placed + [n];
    }

    /** The element-by-element comparison of the rebuilt list with the old one. */
    method Differs(newSequence: seq<Node>, block: seq<Node>) returns (changed: bool)
      ensures changed == (newSequence != block)
    {
      changed := false;
      if |newSequence| != |block| {
        changed := true;
      } else {
        var k := 0;
        while k < |newSequence|
          invariant 0 <= k <= |newSequence|
          invariant !changed ==> newSequence[..k] == block[..k]
          invariant changed ==> newSequence != block
        {
          if newSequence[k] != block[k] {
            changed := true;
            break;
          }
          k := k + 1;
        }
        if !changed {
          assert newSequence == newSequence[..k];
        }
      }
    }

    /**
     * `visitBlock`: rewrites each statement, gathers foldable ones into a
     * comma chain and places the chain before (or into) the next statement.
     * `hasChanges` is raised exactly when the children change.
     */
    method VisitBlock(block: seq<Node>) returns (result: seq<Node>)
      modifies this
      ensures result == FoldBlock(rule, block)
      ensures hasChanges == (old(hasChanges) || result != block)
    {
      var newSequence: seq<Node> := [];
      var commaPending: seq<Node> := [];
      var i := 0;
      while i < |block|
        invariant 0 <= i <= |block|
        invariant FoldState(newSequence, commaPending) == FoldPrefix(rule, block[..i])
        invariant hasChanges == old(hasChanges)
      {
        var node := block[i];
        i := i + 1;
        assert block[..i][..i - 1] == block[..i - 1];
        ghost var st := FoldState(newSequence, commaPending);
        node := RewriteIf(node);
        node := RewriteTernary(node);

        var commaRight := AsCommaOpArg(NodePtr(node));
        if commaRight.NodePtr? {
          commaPending := commaPending + [commaRight.node];
          continue;
        }

        var flushedCommas := FlushCommas(commaPending);
        commaPending := [];
        if flushedCommas.NodePtr? {
          var placed := PlaceCommas(flushedCommas.node, node);
          newSequence := newSequence + placed;
        } else {
          newSequence := newSequence + [node];
        }
        assert FoldState(newSequence, commaPending) == Step(rule, st, block[i - 1]);
      }
      assert block[..i] == block;

      var lastCommas := FlushCommas(commaPending);
      if lastCommas.NodePtr? {
        newSequence := newSequence + [lastCommas.node];
      }

      var changed := Differs(newSequence, block);
      if changed {
        result := newSequence;
        hasChanges := true;
      } else {
        result := block;
      }
    }

    /** `traverse` on any node: children first; only blocks are rewritten. */
    method Traverse(n: Node) returns (r: Node)
      modifies this
      ensures r == Pass(rule, n)
      ensures hasChanges == (old(hasChanges) || r != n)
      decreases n, 3
    {
      if IsTyped(n) {
        r := TraverseExpression(n);
      } else {
        r := TraverseStatement(n);
      }
    }

    method TraverseExpression(n: Node) returns (r: Node)
      requires IsTyped(n)
      modifies this
      ensures r == Pass(rule, n)
      ensures hasChanges == (old(hasChanges) || r != n)
      decreases n, 2
    {
      match n
      case Aggregate(ty, op, call, args) =>
        var args' := TraverseSeq(args);
        r := Aggregate(ty, op, call, args');
      case Swizzle(ty, operand, offsets) =>
        var operand' := Traverse(operand);
        r := Swizzle(ty, operand', offsets);
      case Binary(ty, op, left, right) =>
        var left' := Traverse(left);
        var right' := Traverse(right);
        r := Binary(ty, op, left', right');
      case Unary(ty, op, operand) =>
        var operand' := Traverse(operand);
        r := Unary(ty, op, operand');
      case Ternary(ty, c, t, f) =>
        var c' := Traverse(c);
        var t' := Traverse(t);
        var f' := Traverse(f);
        r := Ternary(ty, c', t', f');
      case Symbol(_, _, _) =>
        r := n;
      case ConstantUnion(_, _) =>
        r := n;
      case FunctionPrototype(_, _) =>
        r := n;
    }

    method TraverseStatement(n: Node) returns (r: Node)
      requires !IsTyped(n)
      modifies this
      ensures r == Pass(rule, n)
      ensures hasChanges == (old(hasChanges) || r != n)
      decreases n, 2
    {
      match n
      case Block(s) =>
        var s' := TraverseBlock(s);
        r := Block(s');
      case IfElse(c, t, f) =>
        var c' := Traverse(c);
        var t' := TraverseMaybeBlock(t);
        var f' := TraverseMaybeBlock(f);
        r := IfElse(c', t', f');
      case Loop(init, test, step, body) =>
        var init' := TraverseMaybeNode(init);
        var test' := TraverseMaybeNode(test);
        var step' := TraverseMaybeNode(step);
        var body' := TraverseMaybeBlock(body);
        r := Loop(init', test', step', body');
      case Switch(sel, body) =>
        var sel' := Traverse(sel);
        var body' := TraverseMaybeBlock(body);
        r := Switch(sel', body');
      case Case(l) =>
        var l' := TraverseMaybeNode(l);
        r := Case(l');
      case Branch(flow, e) =>
        var e' := TraverseMaybeNode(e);
        r := Branch(flow, e');
      case Declaration(ds) =>
        var ds' := TraverseSeq(ds);
        r := Declaration(ds');
      case GlobalQualifierDeclaration(sym) =>
        var sym' := Traverse(sym);
        r := GlobalQualifierDeclaration(sym');
      case FunctionDefinition(p, body) =>
        var p' := Traverse(p);
        var body' := TraverseMaybeBlock(body);
        r := FunctionDefinition(p', body');
      case PreprocessorDirective(_) =>
        r := n;
    }

    method TraverseMaybeNode(m: MaybeNode) returns (r: MaybeNode)
      modifies this
      ensures r == PassMaybeNode(rule, m)
      ensures hasChanges == (old(hasChanges) || r != m)
      decreases m, 3
    {
      if m.NullNode? {
        r := NullNode;
      } else {
        var n' := Traverse(m.node);
        r := NodePtr(n');
      }
    }

    method TraverseMaybeBlock(b: MaybeBlock) returns (r: MaybeBlock)
      modifies this
      ensures r == PassMaybeBlock(rule, b)
      ensures hasChanges == (old(hasChanges) || r != b)
      decreases b, 3
    {
      if b.NullBlock? {
        r := NullBlock;
      } else {
        var s' := TraverseBlock(b.stmts);
        r := BlockPtr(s');
      }
    }

    /** A block: its children, then `visitBlock` on the rebuilt children. */
    method TraverseBlock(s: seq<Node>) returns (r: seq<Node>)
      modifies this
      ensures r == PassBlock(rule, s)
      ensures hasChanges == (old(hasChanges) || r != s)
      decreases s, 2
    {
      var children := TraverseSeq(s);
      PassSeqShrinks(rule, s);
      FoldBlockShrinks(rule, children);
      r := VisitBlock(children);
    }

    /** Children visited in order, without folding. */
    method TraverseSeq(s: seq<Node>) returns (r: seq<Node>)
      modifies this
      ensures r == PassSeq(rule, s)
      ensures hasChanges == (old(hasChanges) || r != s)
      decreases s, 1
    {
      r := [];
      var i := 0;
      while i < |s|
        invariant 0 <= i <= |s|
        invariant r == PassSeq(rule, s[..i])
        invariant hasChanges == (old(hasChanges) || r != s[..i])
      {
        assert s[..i + 1] == s[..i] + [s[i]];
        PassSeqSnoc(rule, s[..i], s[i]);
        var x := Traverse(s[i]);
        SnocDiffers(r, s[..i], x, s[i]);
        r := r + [x];
        i := i + 1;
      }
      assert s[..i] == s;
    }
  }

  /** Two lists of the same length, each with one more node, differ when the lists or the nodes do. */
  lemma SnocDiffers(a: seq<Node>, b: seq<Node>, x: Node, y: Node)
    requires |a| == |b|
    ensures (a + [x] != b + [y]) == (a != b || x != y)
  {
    if a + [x] == b + [y] {
      assert a == (a + [x])[..|a|] && b == (b + [y])[..|b|];
      assert x == (a + [x])[|a|] && y == (b + [y])[|b|];
    }
  }

  /** `n` after `k` traversals. */
  function Iterate(rule: ReturnRule, n: Node, k: nat): Node {
    if k == 0 then n else Pass(rule, Iterate(rule, n, k - 1))
  }

  /**
   * `spglsl_treeops_minify`: traverses until a traversal changes nothing.
   * The result is a fixed point of one traversal, is reached by repeating
   * the traversal, and is no larger than the input.
   */
  method MinifyTree(root: Node, rule: ReturnRule) returns (result: Node, ghost passes: nat)
    ensures Pass(rule, result) == result
    ensures result == Iterate(rule, root, passes)
    ensures Size(result) <= Size(root)
  {
    var traverser := new CommaOperatorTraverser(rule);
    result := root;
    passes := 0;
    while true
      invariant !traverser.hasChanges && traverser.rule == rule
      invariant result == Iterate(rule, root, passes)
      invariant Size(result) <= Size(root)
      decreases Size(result)
    {
      var next := traverser.Traverse(result);
      if !traverser.hasChanges {
        break;
      }
      traverser.hasChanges := false;
      PassChangesShrink(rule, result);
      result := next;
      passes := passes + 1;
    }
  }
}
