// The slice of ANGLE's intermediate tree that the minifier core inspects.
//
// Nodes are values. A C++ `TIntermNode *` that may be null is a `MaybeNode`,
// a `TIntermBlock *` that may be null is a `MaybeBlock`; a block's children
// are a `seq<Node>`.

module AngleAst {

  datatype Option<T> = None | Some(value: T)

  /** The basic types of `TType` that the core tells apart. */
  datatype BasicType = Void | Float | Double | Int | UInt | Bool | Struct | OtherBasic

  /**
   * A `TType`: basic type, nominal (primary) and secondary size, the array
   * sizes (empty when not an array) and, for a structure, its field types.
   */
  datatype Type = Type(basic: BasicType, primarySize: nat, secondarySize: nat,
                       arraySizes: seq<nat>, fields: seq<Type>)

  predicate IsArray(t: Type) { t.arraySizes != [] }

  /** `TType::isScalar`: one component, not a structure, not an array. */
  predicate IsScalar(t: Type) {
    t.primarySize == 1 && t.secondarySize == 1 && t.basic != Struct && !IsArray(t)
  }

  predicate IsScalarBool(t: Type) { IsScalar(t) && t.basic == Bool }

  /** `TType::isStructureContainingArrays`: some field, at any depth, is an array. */
  predicate IsStructureContainingArrays(t: Type)
    decreases t
  {
    t.basic == Struct &&
    exists i :: 0 <= i < |t.fields| &&
      (IsArray(t.fields[i]) || IsStructureContainingArrays(t.fields[i]))
  }

  function Product(s: seq<nat>): nat {
    if s == [] then 1 else Product(s[..|s| - 1]) * s[|s| - 1]
  }

  /** `TType::getObjectSize`: number of scalar components of a value of type `t`. */
  function ObjectSize(t: Type): nat
    decreases t, 1
  {
    (if t.basic == Struct then FieldsObjectSize(t.fields) else t.primarySize * t.secondarySize)
      * Product(t.arraySizes)
  }

  function FieldsObjectSize(fields: seq<Type>): nat
    decreases fields, 0
  {
    if fields == [] then 0
    else FieldsObjectSize(fields[..|fields| - 1]) + ObjectSize(fields[|fields| - 1])
  }

  /** The operators the core mentions by name; all others are `OtherOp`. */
  datatype Op =
    | Negative | Positive | LogicalNot | BitwiseNot
    | PostIncrement | PostDecrement | PreIncrement | PreDecrement | ArrayLength
    | Comma | LogicalAnd | Initialize
    | Assign | AddAssign | SubAssign | MulAssign
    | VectorTimesMatrixAssign | VectorTimesScalarAssign
    | MatrixTimesScalarAssign | MatrixTimesMatrixAssign
    | DivAssign | IModAssign | BitShiftLeftAssign | BitShiftRightAssign
    | BitwiseAndAssign | BitwiseXorAssign | BitwiseOrAssign
    | OtherOp(code: nat)

  /**
   * ANGLE's `IsAssignment`: the increment/decrement operators and the
   * assignment family. Initialization is not an assignment.
   */
  predicate IsAssignment(op: Op) {
    op in {PostIncrement, PostDecrement, PreIncrement, PreDecrement,
           Assign, AddAssign, SubAssign, MulAssign,
           VectorTimesMatrixAssign, VectorTimesScalarAssign,
           MatrixTimesScalarAssign, MatrixTimesMatrixAssign,
           DivAssign, IModAssign, BitShiftLeftAssign, BitShiftRightAssign,
           BitwiseAndAssign, BitwiseXorAssign, BitwiseOrAssign}
  }

  /** One component of a constant (`TConstantUnion`), tagged with its own basic type. */
  datatype ConstScalar = IConst(i: int) | UConst(u: nat) | FConst(f: real) | BConst(b: bool) | OtherConst

  /** `TConstantUnion::isZero`, decided on the component's own type. */
  predicate IsZero(c: ConstScalar) {
    match c
    case IConst(i) => i == 0
    case UConst(u) => u == 0
    case FConst(f) => f == 0.0
    case BConst(b) => !b
    case OtherConst => false
  }

  /**
   * "Is one" read through the basic type `basic` of the enclosing `TType`,
   * as the all-one walk does: a component stored as another kind reads as
   * not one.
   */
  predicate IsOneAs(basic: BasicType, c: ConstScalar) {
    match basic
    case Int => c.IConst? && c.i == 1
    case UInt => c.UConst? && c.u == 1
    case Float => c.FConst? && c.f == 1.0
    case Bool => c.BConst? && c.b
    case _ => false
  }

  /** How an aggregate is evaluated, as far as side effects go. */
  datatype CallKind = Constructor | BuiltInWithoutSideEffects | FunctionCall

  datatype FlowOp = Kill | Return | Break | Continue

  datatype Node =
    // typed nodes (`TIntermTyped`)
    | Aggregate(ty: Type, op: Op, call: CallKind, args: seq<Node>)
    | Swizzle(ty: Type, operand: Node, offsets: seq<nat>)
    | Binary(ty: Type, op: Op, left: Node, right: Node)
    | Unary(ty: Type, op: Op, operand: Node)
    | Ternary(ty: Type, cond: Node, trueExpr: Node, falseExpr: Node)
    | Symbol(ty: Type, id: nat, constValue: Option<seq<ConstScalar>>)
    | ConstantUnion(ty: Type, value: Option<seq<ConstScalar>>)
    | FunctionPrototype(ty: Type, functionId: nat)
    // untyped nodes
    | Block(stmts: seq<Node>)
    | IfElse(cond: Node, trueBlock: MaybeBlock, falseBlock: MaybeBlock)
    | Loop(init: MaybeNode, test: MaybeNode, step: MaybeNode, body: MaybeBlock)
    | Switch(selector: Node, body: MaybeBlock)
    | Case(caseLabel: MaybeNode)
    | Branch(flow: FlowOp, expr: MaybeNode)
    | Declaration(decls: seq<Node>)
    | GlobalQualifierDeclaration(symbol: Node)
    | FunctionDefinition(prototype: Node, body: MaybeBlock)
    | PreprocessorDirective(directive: nat)

  /** A possibly null node pointer. */
  datatype MaybeNode = NullNode | NodePtr(node: Node)

  /** A possibly null block pointer; a present block is its list of children. */
  datatype MaybeBlock = NullBlock | BlockPtr(stmts: seq<Node>)

  /** `getAsTyped() != nullptr`. */
  predicate IsTyped(n: Node) {
    n.Aggregate? || n.Swizzle? || n.Binary? || n.Unary? || n.Ternary? ||
    n.Symbol? || n.ConstantUnion? || n.FunctionPrototype?
  }

  /** `getConstantValue()`: only constant unions and folded constant symbols carry one. */
  function ConstantValue(n: Node): Option<seq<ConstScalar>>
    requires IsTyped(n)
  {
    match n
    case ConstantUnion(_, v) => v
    case Symbol(_, _, v) => v
    case _ => None
  }

  /**
   * ANGLE's `TIntermTyped::hasSideEffects`: assignments, increments and
   * decrements and calls to user functions have effects; symbols, constants
   * and prototypes have none; everything else has an effect iff an operand has.
   */
  predicate HasSideEffects(n: Node)
    decreases n
  {
    match n
    case Aggregate(_, _, call, args) =>
      call == FunctionCall || exists i :: 0 <= i < |args| && HasSideEffects(args[i])
    case Swizzle(_, operand, _) => HasSideEffects(operand)
    case Binary(_, op, l, r) => IsAssignment(op) || HasSideEffects(l) || HasSideEffects(r)
    case Unary(_, op, operand) => IsAssignment(op) || HasSideEffects(operand)
    case Ternary(_, c, t, f) => HasSideEffects(c) || HasSideEffects(t) || HasSideEffects(f)
    case Symbol(_, _, _) => false
    case ConstantUnion(_, _) => false
    case FunctionPrototype(_, _) => false
    case _ => true
  }
}
