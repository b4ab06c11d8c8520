/** Lowering an assignment (VHDLStatementExtension._toVHDL(HDLAssignment)):
    the statement is a variable assignment for a memory-annotated target and
    a signal assignment otherwise, and it goes to the clocked bucket of the
    target's register configuration or, without one, to the unclocked bucket
    of the current process. */
module Assignments {
  import opened Wrappers
  import Hdl
  import opened Vhdl
  import opened VhdlContext
  import OrderedMaps
  import Expressions
  import Declarations
  import opened Env

  /** The left side read as a resolved reference; anything else fails the
      code's cast. */
  function RefOf(left: Hdl.Expr): (r: Result<Hdl.Ref>)
    ensures r.Ok? <==> left.VarRef? || left.InterfaceRef?
    ensures left.VarRef? ==> r == Ok(left.ref)
    ensures left.InterfaceRef? ==> r == Ok(left.iref)
  {
    match left
    case VarRef(ref) => Ok(ref)
    case InterfaceRef(_, _, iref) => Ok(iref)
    case _ => Err(ClassCast)
  }

  /** The value assigned: a whole-array value assigned to a variable with
      dimensions left over after its indices is converted to the array type,
      named by the @VHDLType annotation or by getArrayRefName. */
  function Converted(env: Env, left: Hdl.Expr, right: Hdl.Expr, hvar: Hdl.Variable, value: VExpr): (r: Result<VExpr>)
    requires left.VarRef? || left.InterfaceRef?
    ensures left.InterfaceRef? || |hvar.dims| == 0 ==> r == Ok(value)
    ensures left.VarRef? && |left.ref.arrayIdx| > |hvar.dims| > 0 ==> r == Err(IndexOutOfBounds)
    ensures left.VarRef? && |left.ref.arrayIdx| == |hvar.dims| ==> r == Ok(value)
    ensures right.ArrayInit? && (left.InterfaceRef? || |left.ref.arrayIdx| <= |hvar.dims|) ==> r == Ok(value)
    ensures r.Ok? && r.value != value ==>
              r.value.TypeConversion? && r.value.converted == value && r.value.convType.Unresolved?
  {
    if |hvar.dims| != 0 && left.VarRef? then
      if |left.ref.arrayIdx| > |hvar.dims| then Err(IndexOutOfBounds)
      else if |hvar.dims| - |left.ref.arrayIdx| != 0 && !right.ArrayInit? then
        match hvar.typeAnno
        case Some(t) => Ok(TypeConversion(VType.Unresolved(t), value))
        case None =>
          var decl :- Need(hvar.decl, NullPointer);
          Ok(TypeConversion(VType.Unresolved(Declarations.ArrayRefName(env, hvar, decl.external)), value))
      else Ok(value)
    else Ok(value)
  }

  /** The statement an assignment lowers to.  A memory target must lower to
      a variable assignment target: a bare signal name (a reference that is
      not frozen, or an interface reference without indices) fails the
      code's cast. */
  function AssignStmt(env: Env, left: Hdl.Expr, right: Hdl.Expr): (r: Result<SeqStmt>)
    ensures r.Ok? ==> RefOf(left).Ok? && RefOf(left).value.target.Some?
    ensures r.Ok? ==> (r.value.VariableAssign? <==> RefOf(left).value.target.value.memory.Some?)
    ensures r.Ok? && r.value.VariableAssign? ==> Expressions.Lower(env, left) == Ok(r.value.vTarget)
    ensures r.Ok? && r.value.VariableAssign? ==> !r.value.vTarget.SignalName?
    ensures r.Ok? && r.value.SignalAssign? ==> Expressions.Lower(env, left) == Ok(r.value.sTarget)
    ensures r.Ok? ==> r.value.VariableAssign? || r.value.SignalAssign?
  {
    var ref :- RefOf(left);
    var hvar :- Need(ref.target, Fault.Unresolved);
    var target :- Expressions.Lower(env, left);
    var value :- Expressions.Lower(env, right);
    var value' :- Converted(env, left, right, hvar, value);
    if hvar.memory.Some? then
      if target.SignalName? then Err(ClassCast) else Ok(VariableAssign(target, value'))
    else Ok(SignalAssign(target, value'))
  }

  /** A memory variable written through a plain signal name cannot be
      assigned: whatever the right side, the assignment fails. */
  lemma MemorySignalTargetFails(env: Env, left: Hdl.Expr, right: Hdl.Expr)
    requires RefOf(left).Ok? && RefOf(left).value.target.Some?
    requires RefOf(left).value.target.value.memory.Some?
    requires Expressions.Lower(env, left).Ok? && Expressions.Lower(env, left).value.SignalName?
    ensures AssignStmt(env, left, right).Err?
    ensures Expressions.Lower(env, right).Ok? && Converted(env, left, right, RefOf(left).value.target.value, Expressions.Lower(env, right).value).Ok? ==>
              AssignStmt(env, left, right) == Err(ClassCast)
  {
  }

  /** _toVHDL(HDLAssignment): a one-statement fragment. */
  function LowerAssignment(env: Env, left: Hdl.Expr, right: Hdl.Expr, pid: int, source: Hdl.Stmt): (r: Result<Ctx>)
    ensures r.Ok? ==> Valid(r.value) && Consistent(r.value)
    ensures r.Ok? <==> AssignStmt(env, left, right).Ok?
  {
    var sa :- AssignStmt(env, left, right);
    var hvar := RefOf(left).value.target.value;
    match hvar.register
    case Some(config) => Ok(AddClocked(Empty(), env.normalize, config, sa))
    case None => Ok(AddUnclocked(Empty(), pid, sa, source))
  }

  /** The routing of an assignment: with a register configuration the one
      statement is the whole bucket of the normalised configuration, without
      one it is the whole bucket of the current process, paired with its
      source; no other bucket, declaration or concurrent statement appears. */
  lemma AssignmentRouting(env: Env, left: Hdl.Expr, right: Hdl.Expr, pid: int, source: Hdl.Stmt)
    requires LowerAssignment(env, left, right, pid, source).Ok?
    ensures var c := LowerAssignment(env, left, right, pid, source).value;
            var sa := AssignStmt(env, left, right).value;
            var hvar := RefOf(left).value.target.value;
            && c.decls == Empty().decls
            && c.stmts.resets == Empty().stmts.resets && c.stmts.concurrent == []
            && GetStatement(c) == Ok(sa)
            && (hvar.register.Some? ==>
                  && c.stmts.clocked.keys == [env.normalize(hvar.register.value)]
                  && OrderedMaps.Lookup(c.stmts.clocked, env.normalize(hvar.register.value)) == [sa]
                  && c.stmts.unclocked.keys == [] && c.stmts.sensitive.keys == [])
            && (hvar.register.None? ==>
                  && c.stmts.clocked.keys == []
                  && c.stmts.unclocked.keys == [pid]
                  && OrderedMaps.Lookup(c.stmts.unclocked, pid) == [sa]
                  && OrderedMaps.Lookup(c.stmts.sensitive, pid) == [source])
  {
    var sa := AssignStmt(env, left, right).value;
    var hvar := RefOf(left).value.target.value;
    GetStatementSingle(env.normalize, if hvar.register.Some? then hvar.register.value else Hdl.RegisterConfig(left, left, Hdl.RISING, Hdl.HIGH, Hdl.SYNC, None), pid, sa, source);
  }
}
