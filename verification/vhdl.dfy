/** The VHDL tree the lowering builds (the vMAGIC node kinds it uses), kept
    abstract: text rendering is not part of the model.  Nodes whose content
    comes from helpers outside the translator (literal formatting, casts,
    resizing) record their inputs, so two results are equal exactly when the
    helpers were asked the same question. */
module Vhdl {
  import opened Wrappers
  import Hdl

  datatype Dir = TO | DOWNTO

  datatype VType =
    | Integer | Natural | Boolean | StdLogic | StdLogicVector | Unsigned | Signed
    | NoName                                               // UnresolvedType.NO_NAME
    | Unresolved(typeName: string)                         // new UnresolvedType(name)
    | Enumeration(enumName: string, literals: seq<string>)
    | IndexSubtype(base: VType, index: VRange)
    | ConstrainedArray(arrayName: string, element: VType, ranges: seq<VRange>)
    | CastsType(castsOf: Hdl.PrimitiveType, castsWidth: Option<Hdl.Expr>)  // VHDLCastsLibrary.getType of a primitive

  datatype VRange = VRange(from: VExpr, dir: Dir, to: VExpr)

  datatype BinOp =
    | Add | Subtract | Multiply | Divide | Rem | Pow
    | And | Or | Xor
    | Equals | NotEquals | LessThan | LessEquals | GreaterThan | GreaterEquals

  /** A formal parameter of a function declaration. */
  datatype Param = Param(paramName: string, paramType: VType)

  datatype FunctionDecl = FunctionDecl(fnName: string, returnType: VType, params: seq<Param>)

  datatype Choice = Others | ChoiceExpr(e: VExpr) | ChoiceRange(r: VRange)

  /** One element association `choice => value`, or a positional one. */
  datatype Assoc = Assoc(value: VExpr, choice: Choice)

  datatype Severity = Failure | Error | Warning | Note

  datatype VExpr =
    | Paren(inner: VExpr)
    | Binary(op: BinOp, l: VExpr, r: VExpr)
    | Minus(operand: VExpr)
    | Not(operand: VExpr)
    | Concatenate(l: VExpr, r: VExpr)
    | SignalName(sig: string)
    | VariableName(vname: string)
    | ArrayElement(prefix: VExpr, indices: seq<VExpr>)
    | Slice(prefix: VExpr, range: VRange)
    | StringLit(s: string)
    | BoolLit(b: bool)
    | BasedLit(based: string)
    | DecimalLit(decimal: string)
    | DecimalInt(n: int)
    | CharLit(c: char)
    | BinaryLit(bWidth: int, bValue: int)                  // VHDLUtils.toBinaryLiteral
    | HexLit(hWidth: int, hValue: int)                     // VHDLUtils.toHexLiteral
    | Aggregate(assocs: seq<Assoc>)
    | FunctionCall(callee: Option<FunctionDecl>, args: seq<VExpr>)
    | TypeConversion(convType: VType, converted: VExpr)
    | CastLiteral(lit: Hdl.Literal, castTarget: Hdl.PrimitiveType, castWidth: Option<Hdl.Expr>)  // VHDLCastsLibrary.handleLiteral
    | Resize(resized: VExpr, fromType: Hdl.PrimitiveType, newWidth: Hdl.Expr)                   // VHDLCastsLibrary.getResize
    | Cast(castee: VExpr, castFrom: Hdl.PrimitiveType, castTo: Hdl.PrimitiveType)               // VHDLCastsLibrary.cast
    | Physical(amount: VExpr, unit: string)
    | SeverityLevel(level: Severity)
    | NullExpr                                             // a Java null handed on as an expression

  datatype Elsif = Elsif(cond: VExpr, stmts: seq<SeqStmt>)

  datatype Alternative = Alternative(choice: Choice, stmts: seq<SeqStmt>)

  datatype SeqStmt =
    | SignalAssign(sTarget: VExpr, sValue: VExpr)
    | VariableAssign(vTarget: VExpr, vValue: VExpr)
    | If(cond: VExpr, thenStmts: seq<SeqStmt>, elsifs: seq<Elsif>, elseStmts: seq<SeqStmt>)
    | Case(caseExp: VExpr, alternatives: seq<Alternative>)
    | For(loopParam: string, loopRange: VRange, body: seq<SeqStmt>)
    | Wait(until: Option<VExpr>, forTime: Option<VExpr>)
    | Assertion(condition: VExpr, report: VExpr, severity: Option<VExpr>)

  datatype Mode = ModeIn | ModeOut | ModeInout

  datatype Signal = Signal(sigName: string, sigType: VType, mode: Option<Mode>, sigDefault: Option<VExpr>)

  datatype Constant = Constant(constName: string, constType: VType, constDefault: Option<VExpr>)

  /** An architecture-level declaration. */
  datatype Internal = SignalDecl(signal: Signal) | SharedVariable(varName: string, varType: VType, varDefault: Option<VExpr>)

  /** The items of `internalTypesConstants`: types and constant declarations. */
  datatype DeclItem = TypeItem(t: VType) | ConstantItem(c: Constant)

  datatype Component = Component(compName: string, ports: seq<Signal>, generics: seq<Constant>)

  datatype Concurrent =
    | ComponentInst(instLabel: string, compName: string)     // instantiation of a declared component
    | EntityInst(instLabel: string, entityName: Hdl.QName)   // direct instantiation of an entity
    | ForGenerate(genLabel: string, index: string, genRange: VRange, stmts: seq<Concurrent>)
    | Process(sensitivity: seq<string>, body: seq<SeqStmt>)

  /** Some statement anywhere inside is a wait statement. */
  predicate HasWait(s: SeqStmt) {
    match s
    case Wait(_, _) => true
    case If(_, t, elsifs, e) => AnyWait(t) || ElsifsWait(elsifs) || AnyWait(e)
    case Case(_, alts) => AlternativesWait(alts)
    case For(_, _, body) => AnyWait(body)
    case _ => false
  }

  predicate AnyWait(ss: seq<SeqStmt>) {
    exists i :: 0 <= i < |ss| && HasWait(ss[i])
  }

  predicate ElsifsWait(es: seq<Elsif>) {
    exists i :: 0 <= i < |es| && AnyWait(es[i].stmts)
  }

  predicate AlternativesWait(as_: seq<Alternative>) {
    exists i :: 0 <= i < |as_| && AnyWait(as_[i].stmts)
  }
}
