/** The PSHDL input tree as the lowering sees it: expressions, references with
    the variable they resolve to already attached, register configurations,
    variable declarations and statements.

    Name resolution happens before lowering; a reference carries the resolved
    variable (or nothing when resolution failed), so every lookup the
    translator performs through the resolver becomes a field read here. */
module Hdl {
  import opened Wrappers
  import Strings

  /** A dotted name such as `pkg.Unit.var`, one string per segment. */
  type QName = seq<string>

  datatype Direction = IN | OUT | INOUT | PARAMETER | CONSTANT | INTERNAL | HIDDEN

  /** HDLPrimitiveType, in declaration order. */
  datatype PrimitiveType =
    | INT | UINT | INTEGER | NATURAL | BIT | BITVECTOR | BOOL | STRING
    | ANY_INT | ANY_UINT | ANY_BIT

  /** All primitive types in declaration order (HDLPrimitiveType.values()). */
  const AllPrimitives: seq<PrimitiveType> :=
    [INT, UINT, INTEGER, NATURAL, BIT, BITVECTOR, BOOL, STRING, ANY_INT, ANY_UINT, ANY_BIT]

  /** The names of the primitive types, as Enum.name() spells them. */
  function PrimitiveName(t: PrimitiveType): (r: string)
    ensures |r| > 0
  {
    match t
    case INT => "INT"
    case UINT => "UINT"
    case INTEGER => "INTEGER"
    case NATURAL => "NATURAL"
    case BIT => "BIT"
    case BITVECTOR => "BITVECTOR"
    case BOOL => "BOOL"
    case STRING => "STRING"
    case ANY_INT => "ANY_INT"
    case ANY_UINT => "ANY_UINT"
    case ANY_BIT => "ANY_BIT"
  }

  /** HDLPrimitive.isAny: the placeholder types of untyped constants. */
  predicate IsAny(t: PrimitiveType) {
    t == ANY_INT || t == ANY_UINT || t == ANY_BIT
  }

  datatype ArithOpType = PLUS | MINUS | MUL | DIV | MOD | POW
  datatype BitOpType = AND | OR | XOR | LOGI_AND | LOGI_OR
  datatype EqualityOpType = EQ | NOT_EQ | LESS | LESS_EQ | GREATER | GREATER_EQ

  /** HDLShiftOpType, in declaration order. */
  datatype ShiftOpType = SLL | SRL | SRA

  const AllShiftOps: seq<ShiftOpType> := [SLL, SRL, SRA]

  function ShiftName(op: ShiftOpType): (r: string)
    ensures |r| > 0
  {
    match op
    case SLL => "SLL"
    case SRL => "SRL"
    case SRA => "SRA"
  }

  datatype ManipType = ARITH_NEG | LOGIC_NEG | BIT_NEG | CAST

  /** How a literal was written; a literal built by the translator itself has
      no presentation. */
  datatype Presentation = Str | Bool | Hex | Bin | Num

  /** An HDLLiteral: its source text, its numeric value when the text denotes
      a number (getValueAsBigInt), and its presentation. */
  datatype Literal = Literal(text: string, value: Option<int>, presentation: Option<Presentation>)

  datatype ClockType = RISING | FALLING
  datatype ResetActive = HIGH | LOW
  datatype SyncType = SYNC | ASYNC

  /** The type of an expression as type inference reports it. */
  datatype HType =
    | Primitive(ptype: PrimitiveType, width: Option<Expr>)
    | EnumType(enumName: string)
    | InterfaceType(ifName: QName)

  /** What the resolver knows about a variable's declaration. */
  datatype DeclInfo = DeclInfo(direction: Direction, external: bool)

  /** An HDLVariable, with the annotations and meta data the lowering reads. */
  datatype Variable = Variable(
    name: string,
    dims: seq<Expr>,
    defaultValue: Option<Expr>,
    memory: Option<string>,          // the value of its @memory annotation
    noExplicitReset: bool,           // @VHDLNoExplicitReset
    sharedVar: bool,                 // @sharedVar
    typeAnno: Option<string>,        // the value of its @VHDLType annotation
    origName: Option<string>,        // the ORIG_NAME meta of instantiated ports
    exported: bool,                  // the EXPORT meta
    fullName: QName,                 // FullNameExtension.fullNameOf
    origFullName: Option<QName>,     // the ORIGINAL_FULLNAME meta
    register: Option<RegisterConfig>,// getRegisterConfig() of its declaration
    decl: Option<DeclInfo>)          // its container, when that is a declaration

  /** A clock/reset configuration of a register. */
  datatype RegisterConfig = RegisterConfig(
    clk: Expr, rst: Expr,
    clockType: ClockType, resetType: ResetActive, syncType: SyncType,
    resetValue: Option<Expr>)

  /** A bit range `from:to`; a single bit index has no `from`. */
  datatype Range = Range(from: Option<Expr>, to: Expr)

  /** The common part of variable and interface references. */
  datatype Ref = Ref(
    name: QName,                     // getVarRefName()
    arrayIdx: seq<Expr>,
    bits: seq<Range>,
    frozen: bool,
    target: Option<Variable>)        // what resolveVar() finds

  datatype Call = Call(name: QName, params: seq<Expr>)

  datatype Expr =
    | Lit(lit: Literal)
    | VarRef(ref: Ref)
    | InterfaceRef(hIf: QName, ifArray: seq<Expr>, iref: Ref)
    | EnumRef(enumName: Option<string>, literal: QName)   // enumName: the resolved HDLEnum
    | ArithOp(aop: Option<ArithOpType>, left: Expr, right: Expr)
    | BitOp(bop: Option<BitOpType>, left: Expr, right: Expr)
    | EqualityOp(eop: Option<EqualityOpType>, left: Expr, right: Expr)
    | ShiftOp(sop: ShiftOpType, left: Expr, right: Expr)
    | Manip(mop: ManipType, target: Expr, castTo: Option<HType>)
    | Concat(cats: seq<Expr>)
    | Ternary(cond: Expr, thenExpr: Expr, elseExpr: Expr)
    | ArrayInit(exps: seq<Expr>)
    | FnCall(call: Call)
    | FunctionDef                                         // an HDLFunction in expression position
    | UnresolvedFragment(frag: string)
    | OtherExpr                                           // any other node kind

  /** The first declaration annotation of a kind, found anywhere in the
      declaration, and the type the resolver gives a declaration without a
      primitive. */
  datatype ResolvedType = NoType | EnumDecl(enumName: string, enums: seq<string>) | OtherType

  /** A declared variable together with the reset loop Insulin builds for it
      (createArrayForLoop over its dimensions, assigning the reset value). */
  datatype DeclaredVar = DeclaredVar(v: Variable, resetLoop: Stmt)

  datatype Declaration = Declaration(
    direction: Direction,
    primitive: Option<HType>,        // always a Primitive when present
    register: Option<RegisterConfig>,
    memory: bool,                    // some @memory annotation inside the declaration
    typeAnno: Option<string>,        // the first @VHDLType annotation inside it
    resolved: ResolvedType,          // resolveTypeForced, consulted without a primitive
    external: bool,
    variables: seq<DeclaredVar>)

  datatype SwitchCase = SwitchCase(caseLabel: Option<Expr>, dos: seq<Stmt>)

  datatype Stmt =
    | Block(process: bool, stmts: seq<Stmt>)
    | IfStmt(ifExp: Expr, thenDo: seq<Stmt>, elseDo: seq<Stmt>)
    | Switch(caseExp: Expr, cases: seq<SwitchCase>)
    | ForLoop(param: string, ranges: seq<Range>, dos: seq<Stmt>)
    | Assignment(left: Expr, right: Expr)
    | VarDecl(decl: Declaration)
    | EnumDeclaration(enumName: string, enums: seq<string>)
    | InterfaceInst(instName: string, unitName: QName, component: Option<string>, dims: seq<Expr>)
      // component: the value of the VHDLComponent annotation on the interface's declaration, if it carries one
    | Export(exported: Option<Declaration>)               // the declaration of the exported variable
    | CallStmt(call: Call)
    | DirectGeneration
    | InterfaceDeclaration
    | FunctionDecl
    | OtherStmt

  /** The last segment of a name; Java throws on an empty name. */
  function LastSegment(n: QName): (r: Result<string>)
    ensures r.Ok? <==> |n| > 0
    ensures r.Ok? ==> r.value == n[|n| - 1]
  {
    if |n| == 0 then Err(IndexOutOfBounds) else Ok(n[|n| - 1])
  }

  /** HDLQualifiedName.skipLast(k): all but the last k segments. */
  function SkipLast(n: QName, k: nat): (r: QName)
    ensures |r| == if k <= |n| then |n| - k else 0
    ensures r == n[..|r|]
  {
    if k <= |n| then n[..|n| - k] else []
  }

  /** HDLLiteral.get(v): a plain decimal literal with no presentation. */
  function IntLiteral(v: int): (r: Literal)
    ensures r.value == Some(v) && r.presentation.None?
  {
    Literal(Strings.IntToString(v), Some(v), None)
  }

  /** HDLArithOp.subtract(e, k): the expression `e - k`. */
  function Subtract(e: Expr, k: int): (r: Expr)
    ensures r.ArithOp? && r.aop == Some(MINUS) && r.left == e
    ensures r.right == Lit(IntLiteral(k))
  {
    ArithOp(Some(MINUS), e, Lit(IntLiteral(k)))
  }
}
