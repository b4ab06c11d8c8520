/** Lowering statements (VHDLStatementExtension.toVHDL and its _toVHDL
    cases): every statement becomes a fragment of a VHDL unit, and the
    fragments of a statement's children are merged in order.

    The process counter of VHDLContext.newProcessID is threaded through the
    lowering: every function takes the counter before the statement and
    returns the counter after it. */
module Statements {
  import opened Wrappers
  import Hdl
  import opened Vhdl
  import opened VhdlContext
  import OrderedMaps
  import Expressions
  import Declarations
  import Assignments
  import Functions
  import Partition
  import opened Env
  import Names

  /** What lowering one statement yields: its fragment, or nothing when a
      function call found no provider (the code's null), and the process
      counter after it. */
  datatype Lowered = Lowered(frag: Option<Ctx>, counter: nat)

  /** The case labels of a switch, in order. */
  function Labels(cases: seq<Hdl.SwitchCase>): (r: seq<Option<Hdl.Expr>>)
    ensures |r| == |cases| && forall i :: 0 <= i < |cases| ==> r[i] == cases[i].caseLabel
  {
    seq(|cases|, i requires 0 <= i < |cases| => cases[i].caseLabel)
  }

  /** toVHDL: the dispatch on the kind of statement.  Only a function call
      can come back without a fragment; a function declaration or a kind
      without a case is rejected. */
  function Lower(env: Env, s: Hdl.Stmt, pid: int, counter: nat): (r: Result<Lowered>)
    ensures r.Ok? ==> r.value.counter >= counter
    ensures r.Ok? && r.value.frag.Some? ==> Valid(r.value.frag.value)
    ensures r.Ok? && r.value.frag.None? ==> s.CallStmt?
    ensures s.FunctionDecl? || s.OtherStmt? ==> r == Err(NotImplemented)
    ensures s.Export? && s.exported.None? ==> r == Err(Fault.Unresolved)
    decreases s, 2
  {
    match s
    case Block(_, _) => LowerBlock(env, s, pid, counter)
    case IfStmt(_, _, _) => LowerIf(env, s, pid, counter)
    case Switch(_, _) => LowerSwitch(env, s, pid, counter)
    case ForLoop(_, _, _) => LowerFor(env, s, pid, counter)
    case Assignment(left, right) =>
      var c :- Assignments.LowerAssignment(env, left, right, pid, s);
      Ok(Lowered(Some(c), counter))
    case VarDecl(d) => LowerDecl(env, d, pid, counter)
    case EnumDeclaration(enumName, enums) =>
      Ok(Lowered(Some(AddTypeDeclaration(Empty(), Declarations.EnumDeclType(env, enumName, enums), false)), counter))
    case InterfaceInst(instName, unitName, component, dims) =>
      var c :- LowerInstance(env, instName, unitName, component, dims);
      Ok(Lowered(Some(c), counter))
    case Export(exported) =>
      var d :- Need(exported, Fault.Unresolved);
      var l :- LowerDecl(env, d, pid, counter);
      Ok(Lowered(Some(Merge(Empty(), l.frag.value, false)), l.counter))
    case CallStmt(call) =>
      var answer :- Functions.ProvideStmt(env, call, pid, 0);
      Ok(Lowered(answer, counter))
    case DirectGeneration => Ok(Lowered(Some(Empty()), counter))
    case InterfaceDeclaration => Ok(Lowered(Some(Empty()), counter))
    case FunctionDecl => Err(NotImplemented)
    case OtherStmt => Err(NotImplemented)
  }

  /** The children of a block, branch, loop or case, each lowered under the
      same process id and merged in order into `acc`; a child without a
      fragment raises `missing`. */
  function LowerSeq(env: Env, ss: seq<Hdl.Stmt>, from: nat, pid: int, counter: nat, acc: Ctx, missing: Fault): (r: Result<(Ctx, nat)>)
    requires from <= |ss| && Valid(acc)
    ensures r.Ok? ==> Valid(r.value.0) && r.value.1 >= counter
    ensures from == |ss| ==> r == Ok((acc, counter))
    decreases ss, 0, |ss| - from
  {
    if from == |ss| then Ok((acc, counter))
    else
      var l :- Lower(env, ss[from], pid, counter);
      var frag :- Need(l.frag, missing);
      LowerSeq(env, ss, from + 1, pid, l.counter, Merge(acc, frag, false), missing)
  }

  /** _toVHDL(HDLBlock): a process block opens a new process id, any other
      block keeps the current one; a child without a fragment is an error. */
  function LowerBlock(env: Env, s: Hdl.Stmt, pid: int, counter: nat): (r: Result<Lowered>)
    requires s.Block?
    ensures r.Ok? ==> r.value.frag.Some? && Valid(r.value.frag.value) && r.value.counter >= counter
    ensures s.process && r.Ok? ==> r.value.counter > counter
    decreases s, 1
  {
    var (inner, next) := if s.process then NewProcessId(counter) else (pid, counter);
    var (c, after) :- LowerSeq(env, s.stmts, 0, inner, next, Empty(), NoCodeGenerated);
    Ok(Lowered(Some(c), after))
  }

  /** _toVHDL(HDLIfStatement): both branches are lowered in full, then the
      condition, and the partition of the branches builds the ifs. */
  function LowerIf(env: Env, s: Hdl.Stmt, pid: int, counter: nat): (r: Result<Lowered>)
    requires s.IfStmt?
    ensures r.Ok? ==> r.value.frag.Some? && Valid(r.value.frag.value) && r.value.counter >= counter
    decreases s, 1
  {
    var (tc, n1) :- LowerSeq(env, s.thenDo, 0, pid, counter, Empty(), NullPointer);
    var (ec, n2) :- LowerSeq(env, s.elseDo, 0, pid, n1, Empty(), NullPointer);
    var c :- Partition.AssembleIf(env, s.ifExp, pid, s, tc, ec);
    Ok(Lowered(Some(c), n2))
  }

  /** The cases of a switch, each lowered like a block of its own under the
      current process id. */
  function LowerCases(env: Env, cases: seq<Hdl.SwitchCase>, from: nat, pid: int, counter: nat): (r: Result<(seq<Ctx>, nat)>)
    requires from <= |cases|
    ensures r.Ok? ==> |r.value.0| == |cases| - from && r.value.1 >= counter
    decreases cases, 0, |cases| - from
  {
    if from == |cases| then Ok(([], counter))
    else
      var (c, n) :- LowerSeq(env, cases[from].dos, 0, pid, counter, Empty(), NullPointer);
      var (rest, after) :- LowerCases(env, cases, from + 1, pid, n);
      Ok(([c] + rest, after))
  }

  /** _toVHDL(HDLSwitchStatement): the width first, then the switch
      expression, then every case, then the partition. */
  function LowerSwitch(env: Env, s: Hdl.Stmt, pid: int, counter: nat): (r: Result<Lowered>)
    requires s.Switch?
    ensures r.Ok? ==> r.value.frag.Some? && Valid(r.value.frag.value) && r.value.counter >= counter
    decreases s, 1
  {
    var width :- Partition.SwitchWidth(env, s.caseExp);
    var caseExp :- Expressions.Lower(env, s.caseExp);
    var (frags, after) :- LowerCases(env, s.cases, 0, pid, counter);
    var c :- Partition.AssembleSwitch(env, pid, s, width, caseExp, Labels(s.cases), frags);
    Ok(Lowered(Some(c), after))
  }

  /** _toVHDL(HDLForLoop): the body is lowered and merged, then wrapped. */
  function LowerFor(env: Env, s: Hdl.Stmt, pid: int, counter: nat): (r: Result<Lowered>)
    requires s.ForLoop?
    ensures r.Ok? ==> r.value.frag.Some? && Valid(r.value.frag.value) && r.value.counter >= counter
    decreases s, 1
  {
    var (body, after) :- LowerSeq(env, s.dos, 0, pid, counter, Empty(), NullPointer);
    var c :- Partition.AssembleFor(env, s.param, s.ranges, pid, s, body);
    Ok(Lowered(Some(c), after))
  }

  /** _toVHDL(HDLVariableDeclaration): a declaration carrying a @memory
      annotation produces nothing; a declaration without a VHDL type
      declares nothing; otherwise every variable is handled in order.  A
      declaration contributes declarations and reset statements only. */
  function LowerDecl(env: Env, d: Hdl.Declaration, pid: int, counter: nat): (r: Result<Lowered>)
    ensures r.Ok? ==> r.value.frag.Some? && Valid(r.value.frag.value) && r.value.counter >= counter
    ensures d.memory ==> r == Ok(Lowered(Some(Empty()), counter))
    decreases d, 1
  {
    if d.memory then Ok(Lowered(Some(Empty()), counter))
    else
      var (typing, c) :- Declarations.DeclTyping(env, d, Empty());
      match typing
      case None => Ok(Lowered(Some(c), counter))
      case Some(t) => LowerVars(env, d, t, 0, pid, counter, c)
  }

  /** handleVariable for every variable from `from` on, in order. */
  function LowerVars(env: Env, d: Hdl.Declaration, t: Declarations.Typing, from: nat, pid: int, counter: nat, c: Ctx): (r: Result<Lowered>)
    requires from <= |d.variables| && Valid(c)
    ensures r.Ok? ==> r.value.frag.Some? && Valid(r.value.frag.value) && r.value.counter >= counter
    decreases d, 0, |d.variables| - from, 2
  {
    if from == |d.variables| then Ok(Lowered(Some(c), counter))
    else
      var (c3, n) :- HandleVar(env, d, t, from, pid, counter, c);
      LowerVars(env, d, t, from + 1, pid, n, c3)
  }

  /** handleVariable: the array type, the explicit reset, then the
      declaration itself. */
  function HandleVar(env: Env, d: Hdl.Declaration, t: Declarations.Typing, from: nat, pid: int, counter: nat, c: Ctx): (r: Result<(Ctx, nat)>)
    requires from < |d.variables| && Valid(c)
    ensures r.Ok? ==> Valid(r.value.0) && r.value.1 >= counter
    decreases d, 0, |d.variables| - from, 1
  {
    var (varType, c1) :- Declarations.ArrayType(env, d, d.variables[from].v, t.vtype, c);
    var (c2, n) :- LowerReset(env, d, t, from, pid, counter, c1);
    var c3 :- Declarations.Declare(env, d, d.variables[from].v, varType, t, c2);
    Ok((c3, n))
  }

  /** `f` extends `c` by `decls` declared items and by `resets` statements
      at the end of the reset bucket of the declaration's normalised register
      configuration; no other statement and no other bucket changes. */
  ghost predicate Extends(env: Env, d: Hdl.Declaration, c: Ctx, f: Ctx, decls: nat, resets: nat) {
    && f.stmts.(resets := c.stmts.resets) == c.stmts
    && (d.register.None? ==> f.stmts == c.stmts)
    && Declarations.DeclCount(f) == Declarations.DeclCount(c) + decls
    && (d.register.Some? ==>
          var k := env.normalize(d.register.value);
          |OrderedMaps.Lookup(f.stmts.resets, k)| == |OrderedMaps.Lookup(c.stmts.resets, k)| + resets)
    && forall k :: d.register.None? || k != env.normalize(d.register.value) ==>
         OrderedMaps.Lookup(f.stmts.resets, k) == OrderedMaps.Lookup(c.stmts.resets, k)
  }

  lemma ExtendsTrans(env: Env, d: Hdl.Declaration, a: Ctx, b: Ctx, c: Ctx, n1: nat, r1: nat, n2: nat, r2: nat)
    requires Extends(env, d, a, b, n1, r1) && Extends(env, d, b, c, n2, r2)
    ensures Extends(env, d, a, c, n1 + n2, r1 + r2)
  {
  }

  /** What a declaration contributes: nothing for a memory declaration;
      otherwise one declared item per variable when the declaration has a
      VHDL type, the explicit resets in the bucket of the register's
      normalised configuration, and no other statement. */
  lemma LowerDeclShape(env: Env, d: Hdl.Declaration, pid: int, counter: nat)
    requires LowerDecl(env, d, pid, counter).Ok?
    ensures var f := LowerDecl(env, d, pid, counter).value.frag.value;
            && f.stmts.(resets := Empty().stmts.resets) == Empty().stmts
            && (d.register.None? || d.memory ==> f.stmts == Empty().stmts)
            && (!d.memory ==> Declarations.DeclTyping(env, d, Empty()).Ok?)
            && (d.memory || Declarations.DeclTyping(env, d, Empty()).value.0.None? ==> Declarations.DeclCount(f) == 0)
            && (!d.memory && Declarations.DeclTyping(env, d, Empty()).value.0.Some? ==>
                  var t := Declarations.DeclTyping(env, d, Empty()).value.0.value;
                  && Declarations.DeclCount(f) == |d.variables|
                  && (d.register.Some? ==>
                        |OrderedMaps.Lookup(f.stmts.resets, env.normalize(d.register.value))| == ResetCount(d, t, 0)))
  {
    if !d.memory {
      var (typing, c) := Declarations.DeclTyping(env, d, Empty()).value;
      if typing.Some? {
        LowerVarsShape(env, d, typing.value, 0, pid, counter, c);
      }
    }
  }

  /** handleVariable from `from` on: one declared item per variable and one
      reset per explicitly reset variable, as Extends describes. */
  lemma {:induction false} LowerVarsShape(env: Env, d: Hdl.Declaration, t: Declarations.Typing, from: nat, pid: int, counter: nat, c: Ctx)
    requires from <= |d.variables| && Valid(c)
    requires LowerVars(env, d, t, from, pid, counter, c).Ok?
    ensures Extends(env, d, c, LowerVars(env, d, t, from, pid, counter, c).value.frag.value, |d.variables| - from, ResetCount(d, t, from))
    decreases |d.variables| - from
  {
    if from < |d.variables| {
      var h := HandleVar(env, d, t, from, pid, counter, c).value;
      VarExtends(env, d, t, from, pid, counter, c);
      LowerVarsStep(env, d, t, from, pid, counter, c);
      LowerVarsShape(env, d, t, from + 1, pid, h.1, h.0);
      var f := LowerVars(env, d, t, from + 1, pid, h.1, h.0).value.frag.value;
      assert ResetCount(d, t, from) == (if ExplicitReset(d, t, d.variables[from].v) then 1 else 0) + ResetCount(d, t, from + 1);
      ExtendsTrans(env, d, c, h.0, f, 1, if ExplicitReset(d, t, d.variables[from].v) then 1 else 0,
                   |d.variables| - from - 1, ResetCount(d, t, from + 1));
    }
  }

  lemma LowerVarsStep(env: Env, d: Hdl.Declaration, t: Declarations.Typing, from: nat, pid: int, counter: nat, c: Ctx)
    requires from < |d.variables| && Valid(c)
    requires HandleVar(env, d, t, from, pid, counter, c).Ok?
    ensures var h := HandleVar(env, d, t, from, pid, counter, c).value;
            LowerVars(env, d, t, from, pid, counter, c) == LowerVars(env, d, t, from + 1, pid, h.1, h.0)
  {
  }

  /** One variable extends the context by one declared item and by its
      explicit reset, if it has one. */
  lemma VarExtends(env: Env, d: Hdl.Declaration, t: Declarations.Typing, from: nat, pid: int, counter: nat, c: Ctx)
    requires from < |d.variables| && Valid(c)
    requires HandleVar(env, d, t, from, pid, counter, c).Ok?
    ensures Extends(env, d, c, HandleVar(env, d, t, from, pid, counter, c).value.0, 1,
                    if ExplicitReset(d, t, d.variables[from].v) then 1 else 0)
  {
  }

  /** Whether handleVariable writes an explicit reset for a variable: the
      declaration has a reset value and a register, and the variable is
      neither @VHDLNoExplicitReset nor @memory. */
  predicate ExplicitReset(d: Hdl.Declaration, t: Declarations.Typing, v: Hdl.Variable) {
    t.reset.Some? && !(v.noExplicitReset || v.memory.Some?) && d.register.Some?
  }

  /** The number of variables from `from` on that get an explicit reset. */
  function ResetCount(d: Hdl.Declaration, t: Declarations.Typing, from: nat): nat
    requires from <= |d.variables|
    decreases |d.variables| - from
  {
    if from == |d.variables| then 0
    else (if ExplicitReset(d, t, d.variables[from].v) then 1 else 0) + ResetCount(d, t, from + 1)
  }

  /** The explicit reset of one variable, under the declaration's register
      configuration: an array initialiser is assigned as a whole, any other
      reset value through the statement of its reset loop. */
  function LowerReset(env: Env, d: Hdl.Declaration, t: Declarations.Typing, from: nat, pid: int, counter: nat, c: Ctx): (r: Result<(Ctx, nat)>)
    requires from < |d.variables| && Valid(c)
    ensures r.Ok? ==> Valid(r.value.0) && r.value.1 >= counter
    ensures r.Ok? ==> r.value.0.stmts.(resets := c.stmts.resets) == c.stmts && r.value.0.decls == c.decls
    ensures !ExplicitReset(d, t, d.variables[from].v) ==> r == Ok((c, counter))
    ensures r.Ok? && ExplicitReset(d, t, d.variables[from].v) ==>
              var k := env.normalize(d.register.value);
              && |OrderedMaps.Lookup(r.value.0.stmts.resets, k)| == |OrderedMaps.Lookup(c.stmts.resets, k)| + 1
              && OrderedMaps.Lookup(r.value.0.stmts.resets, k)[..|OrderedMaps.Lookup(c.stmts.resets, k)|]
                   == OrderedMaps.Lookup(c.stmts.resets, k)
    ensures r.Ok? ==> forall k :: d.register.None? || k != env.normalize(d.register.value) ==>
              OrderedMaps.Lookup(r.value.0.stmts.resets, k) == OrderedMaps.Lookup(c.stmts.resets, k)
    decreases d, 0, |d.variables| - from, 0
  {
    var dv := d.variables[from];
    if !ExplicitReset(d, t, dv.v) then Ok((c, counter))
    else
      var rv := t.reset.value;
      var config := d.register.value;
      if rv.VarRef? && rv.ref.target.None? then Err(Fault.Unresolved)
      else if rv.ArrayInit? then
        var a :- Expressions.ToArray(env, rv, t.other);
        Ok((AddReset(c, env.normalize, config, SignalAssign(SignalName(dv.v.name), a)), counter))
      else
        var l :- Lower(env, dv.resetLoop, pid, counter);
        var frag :- Need(l.frag, NullPointer);
        var st :- GetStatement(frag);
        Ok((AddReset(c, env.normalize, config, st), l.counter))
  }

  // ----- interface instantiation -----

  /** The range of the i-th dimension of an instance array: 0 to the
      dimension minus one, counting up. */
  function DimRange(dim: Hdl.Expr): (r: Hdl.Range)
    ensures r.from == Some(Hdl.Lit(Hdl.IntLiteral(0))) && r.to == Hdl.Subtract(dim, 1)
  {
    Hdl.Range(Some(Hdl.Lit(Hdl.IntLiteral(0))), Hdl.Subtract(dim, 1))
  }

  /** The for-generate statements of the dimensions from `from` on, each
      nested in the one before, with `inner` innermost. */
  function Generate(env: Env, instName: string, dims: seq<Hdl.Expr>, from: nat, inner: Concurrent): (r: Result<Concurrent>)
    requires from <= |dims|
    ensures from == |dims| ==> r == Ok(inner)
    ensures from < |dims| && r.Ok? ==>
              && r.value.ForGenerate? && |r.value.stmts| == 1
              && r.value.genLabel == "generate_" + instName
              && Ok(r.value.index) == Declarations.AsIndex(from)
              && Ok(r.value.genRange) == Expressions.LowerRange(env, DimRange(dims[from]), TO)
              && Generate(env, instName, dims, from + 1, inner) == Ok(r.value.stmts[0])
    decreases |dims| - from
  {
    if from == |dims| then Ok(inner)
    else
      var index :- Declarations.AsIndex(from);
      var rng :- Expressions.LowerRange(env, DimRange(dims[from]), TO);
      var rest :- Generate(env, instName, dims, from + 1, inner);
      Ok(ForGenerate("generate_" + instName, index, rng, [rest]))
  }

  /** _toVHDL(HDLInterfaceInstantiation) without its port and generic maps.
      An interface declared with the VHDLComponent annotation is
      instantiated as a component: with the value "declare" the component
      is declared here, with any other value the unit it names is imported.
      Any other interface is instantiated as the entity its name refers to.
      The instantiation sits alone, or in a nest of for-generate statements,
      one per dimension. */
  function LowerInstance(env: Env, instName: string, unitName: Hdl.QName, component: Option<string>, dims: seq<Hdl.Expr>): (r: Result<Ctx>)
    ensures |unitName| == 0 ==> r == Err(IndexOutOfBounds)
    ensures r.Ok? ==> Valid(r.value) && r.value.stmts.(concurrent := []) == Empty().stmts && |r.value.stmts.concurrent| == 1
    ensures |unitName| > 0 ==>
              var inst := if component.Some? then ComponentInst(instName, unitName[|unitName| - 1])
                          else EntityInst(instName, Names.NameRef(unitName).value);
              && (r.Ok? <==> Generate(env, instName, dims, 0, inst).Ok?)
              && (r.Ok? ==> Generate(env, instName, dims, 0, inst) == Ok(r.value.stmts.concurrent[0]))
    ensures r.Ok? && component != Some("declare") ==> r.value.decls.(imports := []) == Empty().decls
    ensures r.Ok? && component.None? ==> r.value.decls.imports == []
    ensures r.Ok? && component.Some? && component != Some("declare") ==>
              forall m :: m in r.value.decls.imports <==> m == Hdl.SkipLast(Names.NameRef(unitName).value, 1)
    ensures r.Ok? && component == Some("declare") ==>
              && r.value.decls.(components := Empty().decls.components) == Empty().decls
              && (forall n :: OrderedMaps.Get(r.value.decls.components, n).Some? <==> n == unitName[|unitName| - 1])
              && OrderedMaps.Get(r.value.decls.components, unitName[|unitName| - 1]).value.compName == unitName[|unitName| - 1]
  {
    match component
    case None =>
      var ref :- Names.NameRef(unitName);
      Nest(env, instName, dims, Empty(), EntityInst(instName, ref))
    case Some(value) =>
      var last :- Hdl.LastSegment(unitName);
      var c :=
        if value == "declare" then AddComponent(Empty(), Component(last, [], []))
        else AddImport(Empty(), Names.NameRef(unitName).value);
      Nest(env, instName, dims, c, ComponentInst(instName, last))
  }

  /** The instantiation, inside its generate nest when it has dimensions,
      as the one concurrent statement added to `c`. */
  function Nest(env: Env, instName: string, dims: seq<Hdl.Expr>, c: Ctx, inst: Concurrent): (r: Result<Ctx>)
    ensures r.Ok? <==> Generate(env, instName, dims, 0, inst).Ok?
    ensures r.Ok? ==> r == Ok(AddConcurrent(c, Generate(env, instName, dims, 0, inst).value))
  {
    if |dims| == 0 then Ok(AddConcurrent(c, inst))
    else
      var g :- Generate(env, instName, dims, 0, inst);
      Ok(AddConcurrent(c, g))
  }

  // ----- where statements go -----

  /** HDLRegisterConfig.normalize, applied twice, changes nothing more. */
  ghost predicate Idempotent(env: Env) {
    forall k :: env.normalize(env.normalize(k)) == env.normalize(k)
  }

  /** The combinational statements of a fragment sit under the process id
      `pid` or under one of the ids opened in (lo, hi]. */
  ghost predicate Placed(c: Ctx, pid: int, lo: int, hi: int) {
    forall p :: OrderedMaps.Lookup(c.stmts.unclocked, p) != [] ==> p == pid || lo < p <= hi
  }

  /** Every clocked bucket is keyed by a normalised configuration. */
  ghost predicate KeysNormal(env: Env, c: Ctx) {
    forall k :: k in c.stmts.clocked.keys ==> env.normalize(k) == k
  }

  /** The code-function providers other than the built-in one answer a
      call with statements of the process they are asked for, under
      normalised configurations. */
  ghost predicate ForeignPlaced(env: Env) {
    forall i, call, p :: 0 <= i < |env.providers| && env.providers[i].Foreign? && env.providers[i].onStmt(call, p).Some? ==>
      Placed(env.providers[i].onStmt(call, p).value, p, p, p) && KeysNormal(env, env.providers[i].onStmt(call, p).value)
  }

  lemma NormalKeys(env: Env, c: Ctx)
    requires KeysNormal(env, c)
    ensures Partition.Normalized(env.normalize, c.stmts.clocked.keys)
  {
    forall i | 0 <= i < |c.stmts.clocked.keys| ensures env.normalize(c.stmts.clocked.keys[i]) == c.stmts.clocked.keys[i] {
      assert c.stmts.clocked.keys[i] in c.stmts.clocked.keys;
    }
  }

  /** A fragment whose combinational keys are at most the current process
      keeps its statements there. */
  lemma PlacedByKeys(c: Ctx, pid: int, lo: int, hi: int)
    requires Valid(c) && forall p :: p in c.stmts.unclocked.keys ==> p == pid
    ensures Placed(c, pid, lo, hi)
  {
    forall p | OrderedMaps.Lookup(c.stmts.unclocked, p) != [] ensures p == pid {
      assert p in c.stmts.unclocked.entries;
    }
  }

  /** Merging two placed fragments gives a placed fragment. */
  lemma MergePlaced(env: Env, a: Ctx, b: Ctx, pid: int, lo: int, mid: int, hi: int)
    requires Valid(a) && Valid(b) && lo <= mid <= hi
    requires Placed(a, pid, lo, mid) && Placed(b, pid, mid, hi)
    requires KeysNormal(env, a) && KeysNormal(env, b)
    ensures Placed(Merge(a, b, false), pid, lo, hi) && KeysNormal(env, Merge(a, b, false))
  {
    MergeStatementsKeys(a.stmts, b.stmts);
  }

  /** The built-in statement functions write only to the process they are
      asked for and never to a clocked bucket. */
  lemma BuiltinPlaced(env: Env, call: Hdl.Call, pid: int)
    requires Functions.BuiltinStmt(env, call, pid).Ok? && Functions.BuiltinStmt(env, call, pid).value.Some?
    ensures var c := Functions.BuiltinStmt(env, call, pid).value.value;
            Placed(c, pid, pid, pid) && KeysNormal(env, c)
  {
    var c := Functions.BuiltinStmt(env, call, pid).value.value;
    PlacedByKeys(c, pid, pid, pid);
  }

  /** What the providers answer to a function-call statement keeps to the
      current process and to normalised configurations. */
  lemma {:induction false} ProvidePlaced(env: Env, call: Hdl.Call, pid: int, i: nat)
    requires i <= |env.providers| && ForeignPlaced(env)
    requires Functions.ProvideStmt(env, call, pid, i).Ok? && Functions.ProvideStmt(env, call, pid, i).value.Some?
    ensures var c := Functions.ProvideStmt(env, call, pid, i).value.value;
            Placed(c, pid, pid, pid) && KeysNormal(env, c)
    decreases |env.providers| - i
  {
    match env.providers[i]
    case Builtin =>
      if Functions.BuiltinStmt(env, call, pid).value.Some? {
        BuiltinPlaced(env, call, pid);
      } else {
        ProvidePlaced(env, call, pid, i + 1);
      }
    case Foreign(_, onStmt) =>
      if onStmt(call, pid).None? {
        ProvidePlaced(env, call, pid, i + 1);
      }
  }

  /** Process placement and normalised keys, for every statement: the
      combinational statements of a lowered statement sit under the current
      process or under a process it opened itself, and every clocked bucket
      is keyed by a normalised configuration. */
  lemma {:induction false} LowerPlaced(env: Env, s: Hdl.Stmt, pid: int, counter: nat)
    requires Idempotent(env) && ForeignPlaced(env)
    requires Lower(env, s, pid, counter).Ok? && Lower(env, s, pid, counter).value.frag.Some?
    ensures var l := Lower(env, s, pid, counter).value;
            Placed(l.frag.value, pid, counter, l.counter) && KeysNormal(env, l.frag.value)
    decreases s, 2
  {
    var l := Lower(env, s, pid, counter).value;
    match s
    case Block(_, _) => BlockPlaced(env, s, pid, counter);
    case IfStmt(_, _, _) => IfPlaced(env, s, pid, counter);
    case Switch(_, _) => SwitchPlaced(env, s, pid, counter);
    case ForLoop(_, _, _) => ForPlaced(env, s, pid, counter);
    case Assignment(left, right) =>
      AssignmentPlaced(env, left, right, pid, s, counter, l.counter);
    case VarDecl(d) =>
      LowerDeclShape(env, d, pid, counter);
      QuietPlaced(env, l.frag.value, pid, counter, l.counter);
    case Export(exported) =>
      LowerDeclShape(env, exported.value, pid, counter);
      var f := LowerDecl(env, exported.value, pid, counter).value.frag.value;
      QuietPlaced(env, Empty(), pid, counter, counter);
      QuietPlaced(env, f, pid, counter, l.counter);
      MergePlaced(env, Empty(), f, pid, counter, counter, l.counter);
    case CallStmt(call) => ProvidePlaced(env, call, pid, 0);
    case EnumDeclaration(_, _) => QuietPlaced(env, l.frag.value, pid, counter, l.counter);
    case InterfaceInst(_, _, _, _) => QuietPlaced(env, l.frag.value, pid, counter, l.counter);
    case DirectGeneration => QuietPlaced(env, l.frag.value, pid, counter, l.counter);
    case InterfaceDeclaration => QuietPlaced(env, l.frag.value, pid, counter, l.counter);
    case FunctionDecl =>
    case OtherStmt =>
  }

  /** A fragment with normalised configurations and combinational
      statements of the current process at most. */
  lemma AssembledPlaced(env: Env, c: Ctx, pid: int, lo: int, hi: int)
    requires Valid(c) && (c.stmts.unclocked.keys == [] || c.stmts.unclocked.keys == [pid])
    requires Partition.Normalized(env.normalize, c.stmts.clocked.keys)
    ensures Placed(c, pid, lo, hi) && KeysNormal(env, c)
  {
    PlacedByKeys(c, pid, lo, hi);
    forall k | k in c.stmts.clocked.keys ensures env.normalize(k) == k {
      var i :| 0 <= i < |c.stmts.clocked.keys| && c.stmts.clocked.keys[i] == k;
    }
  }

  /** A fragment without clocked or combinational statements. */
  lemma QuietPlaced(env: Env, c: Ctx, pid: int, lo: int, hi: int)
    requires c.stmts.clocked == Empty().stmts.clocked && c.stmts.unclocked == Empty().stmts.unclocked
    ensures Placed(c, pid, lo, hi) && KeysNormal(env, c)
  {
  }

  /** An assignment goes to its normalised configuration or to the current
      process. */
  lemma AssignmentPlaced(env: Env, left: Hdl.Expr, right: Hdl.Expr, pid: int, source: Hdl.Stmt, lo: int, hi: int)
    requires Idempotent(env)
    requires Assignments.LowerAssignment(env, left, right, pid, source).Ok?
    ensures var c := Assignments.LowerAssignment(env, left, right, pid, source).value;
            Placed(c, pid, lo, hi) && KeysNormal(env, c)
  {
    var c := Assignments.LowerAssignment(env, left, right, pid, source).value;
    Assignments.AssignmentRouting(env, left, right, pid, source);
    RoutedPlaced(env, c, pid, lo, hi, Assignments.RefOf(left).value.target.value.register);
  }

  /** A fragment with one bucket: the clocked bucket of the normalised
      register configuration when there is one, else the combinational bucket
      of the current process. */
  lemma RoutedPlaced(env: Env, c: Ctx, pid: int, lo: int, hi: int, register: Option<Hdl.RegisterConfig>)
    requires Idempotent(env) && Valid(c)
    requires register.Some? ==> c.stmts.clocked.keys == [env.normalize(register.value)] && c.stmts.unclocked.keys == []
    requires register.None? ==> c.stmts.clocked.keys == [] && c.stmts.unclocked.keys == [pid]
    ensures Placed(c, pid, lo, hi) && KeysNormal(env, c)
  {
    PlacedByKeys(c, pid, lo, hi);
  }

  lemma {:induction false} LowerSeqPlaced(env: Env, ss: seq<Hdl.Stmt>, from: nat, pid: int, counter: nat, acc: Ctx, missing: Fault, lo: int)
    requires Idempotent(env) && ForeignPlaced(env)
    requires from <= |ss| && Valid(acc) && lo <= counter
    requires Placed(acc, pid, lo, counter) && KeysNormal(env, acc)
    requires LowerSeq(env, ss, from, pid, counter, acc, missing).Ok?
    ensures var (c, after) := LowerSeq(env, ss, from, pid, counter, acc, missing).value;
            Placed(c, pid, lo, after) && KeysNormal(env, c)
    decreases ss, 0, |ss| - from
  {
    if from < |ss| {
      var l := Lower(env, ss[from], pid, counter).value;
      LowerPlaced(env, ss[from], pid, counter);
      MergePlaced(env, acc, l.frag.value, pid, lo, counter, l.counter);
      LowerSeqPlaced(env, ss, from + 1, pid, l.counter, Merge(acc, l.frag.value, false), missing, lo);
    }
  }

  lemma {:induction false} BlockPlaced(env: Env, s: Hdl.Stmt, pid: int, counter: nat)
    requires Idempotent(env) && ForeignPlaced(env)
    requires s.Block? && LowerBlock(env, s, pid, counter).Ok?
    ensures var l := LowerBlock(env, s, pid, counter).value;
            Placed(l.frag.value, if s.process then counter + 1 else pid, counter, l.counter)
            && KeysNormal(env, l.frag.value)
    decreases s, 1
  {
    var (inner, next) := if s.process then NewProcessId(counter) else (pid, counter);
    LowerSeqPlaced(env, s.stmts, 0, inner, next, Empty(), NoCodeGenerated, counter);
  }

  lemma {:induction false} IfPlaced(env: Env, s: Hdl.Stmt, pid: int, counter: nat)
    requires Idempotent(env) && ForeignPlaced(env)
    requires s.IfStmt? && LowerIf(env, s, pid, counter).Ok?
    ensures var l := LowerIf(env, s, pid, counter).value;
            Placed(l.frag.value, pid, counter, l.counter) && KeysNormal(env, l.frag.value)
    decreases s, 1
  {
    var (tc, n1) := LowerSeq(env, s.thenDo, 0, pid, counter, Empty(), NullPointer).value;
    var (ec, n2) := LowerSeq(env, s.elseDo, 0, pid, n1, Empty(), NullPointer).value;
    LowerSeqPlaced(env, s.thenDo, 0, pid, counter, Empty(), NullPointer, counter);
    LowerSeqPlaced(env, s.elseDo, 0, pid, n1, Empty(), NullPointer, n1);
    NormalKeys(env, tc);
    NormalKeys(env, ec);
    Partition.IfPartition(env, s.ifExp, pid, s, tc, ec);
    Partition.UnionKeysDistinct(tc.stmts.clocked.keys, ec.stmts.clocked.keys, env.normalize);
    var c := Partition.AssembleIf(env, s.ifExp, pid, s, tc, ec).value;
    AssembledPlaced(env, c, pid, counter, n2);
  }

  /** Case fragments as the switch partition needs them: valid, and keyed
      by normalised configurations. */
  ghost predicate CasesNormal(env: Env, frags: seq<Ctx>) {
    forall i :: 0 <= i < |frags| ==> Valid(frags[i]) && Partition.Normalized(env.normalize, frags[i].stmts.clocked.keys)
  }

  lemma ConsNormal(env: Env, c: Ctx, rest: seq<Ctx>)
    requires Valid(c) && KeysNormal(env, c) && CasesNormal(env, rest)
    ensures CasesNormal(env, [c] + rest)
  {
    NormalKeys(env, c);
    forall i | 0 <= i < |[c] + rest|
      ensures Valid(([c] + rest)[i]) && Partition.Normalized(env.normalize, ([c] + rest)[i].stmts.clocked.keys)
    {
      if i > 0 {
        assert ([c] + rest)[i] == rest[i - 1];
      }
    }
  }

  /** One step of LowerCases: the first case, then the rest. */
  lemma LowerCasesStep(env: Env, cases: seq<Hdl.SwitchCase>, from: nat, pid: int, counter: nat)
    requires from < |cases| && LowerCases(env, cases, from, pid, counter).Ok?
    ensures var first := LowerSeq(env, cases[from].dos, 0, pid, counter, Empty(), NullPointer);
            && first.Ok?
            && LowerCases(env, cases, from + 1, pid, first.value.1).Ok?
            && LowerCases(env, cases, from, pid, counter).value.0
                 == [first.value.0] + LowerCases(env, cases, from + 1, pid, first.value.1).value.0
  {
  }

  lemma {:induction false} LowerCasesNormal(env: Env, cases: seq<Hdl.SwitchCase>, from: nat, pid: int, counter: nat)
    requires Idempotent(env) && ForeignPlaced(env)
    requires from <= |cases| && LowerCases(env, cases, from, pid, counter).Ok?
    ensures CasesNormal(env, LowerCases(env, cases, from, pid, counter).value.0)
    decreases cases, 0, |cases| - from
  {
    if from < |cases| {
      LowerCasesStep(env, cases, from, pid, counter);
      var first := LowerSeq(env, cases[from].dos, 0, pid, counter, Empty(), NullPointer).value;
      QuietPlaced(env, Empty(), pid, counter, counter);
      LowerSeqPlaced(env, cases[from].dos, 0, pid, counter, Empty(), NullPointer, counter);
      LowerCasesNormal(env, cases, from + 1, pid, first.1);
      ConsNormal(env, first.0, LowerCases(env, cases, from + 1, pid, first.1).value.0);
    }
  }

  lemma {:induction false} SwitchPlaced(env: Env, s: Hdl.Stmt, pid: int, counter: nat)
    requires Idempotent(env) && ForeignPlaced(env)
    requires s.Switch? && LowerSwitch(env, s, pid, counter).Ok?
    ensures var l := LowerSwitch(env, s, pid, counter).value;
            Placed(l.frag.value, pid, counter, l.counter) && KeysNormal(env, l.frag.value)
    decreases s, 1
  {
    var width := Partition.SwitchWidth(env, s.caseExp).value;
    var caseExp := Expressions.Lower(env, s.caseExp).value;
    var (frags, after) := LowerCases(env, s.cases, 0, pid, counter).value;
    LowerCasesNormal(env, s.cases, 0, pid, counter);
    Partition.SwitchPartition(env, pid, s, width, caseExp, Labels(s.cases), frags);
    Partition.CaseKeysDistinct(frags, env.normalize);
    var c := Partition.AssembleSwitch(env, pid, s, width, caseExp, Labels(s.cases), frags).value;
    AssembledPlaced(env, c, pid, counter, after);
  }

  lemma {:induction false} ForPlaced(env: Env, s: Hdl.Stmt, pid: int, counter: nat)
    requires Idempotent(env) && ForeignPlaced(env)
    requires s.ForLoop? && LowerFor(env, s, pid, counter).Ok?
    ensures var l := LowerFor(env, s, pid, counter).value;
            Placed(l.frag.value, pid, counter, l.counter) && KeysNormal(env, l.frag.value)
    decreases s, 1
  {
    var (body, after) := LowerSeq(env, s.dos, 0, pid, counter, Empty(), NullPointer).value;
    LowerSeqPlaced(env, s.dos, 0, pid, counter, Empty(), NullPointer, counter);
    NormalKeys(env, body);
    Partition.ForPartition(env, s.param, s.ranges, pid, s, body);
    var c := Partition.AssembleFor(env, s.param, s.ranges, pid, s, body).value;
    AssembledPlaced(env, c, pid, counter, after);
  }

  // ----- what each kind of statement produces -----

  /** A process block never writes to the process it sits in: all its
      combinational statements belong to process ids above the counter it
      started from, and at most the counter it ends with. */
  lemma ProcessBlockOwnIds(env: Env, ss: seq<Hdl.Stmt>, pid: int, counter: nat)
    requires Idempotent(env) && ForeignPlaced(env)
    requires Lower(env, Hdl.Block(true, ss), pid, counter).Ok?
    ensures var l := Lower(env, Hdl.Block(true, ss), pid, counter).value;
            forall p :: OrderedMaps.Lookup(l.frag.value.stmts.unclocked, p) != [] ==> counter < p <= l.counter
  {
    BlockPlaced(env, Hdl.Block(true, ss), pid, counter);
  }

  /** Two statements lowered one after the other never share a process they
      opened: the ids of the first end where the second's begin. */
  lemma SiblingProcessesDisjoint(env: Env, s1: Hdl.Stmt, s2: Hdl.Stmt, pid: int, counter: nat)
    requires Idempotent(env) && ForeignPlaced(env)
    requires Lower(env, s1, pid, counter).Ok? && Lower(env, s1, pid, counter).value.frag.Some?
    requires var n := Lower(env, s1, pid, counter).value.counter;
             Lower(env, s2, pid, n).Ok? && Lower(env, s2, pid, n).value.frag.Some?
    ensures var l1 := Lower(env, s1, pid, counter).value;
            var l2 := Lower(env, s2, pid, l1.counter).value;
            forall p :: p != pid && OrderedMaps.Lookup(l1.frag.value.stmts.unclocked, p) != [] ==>
                          OrderedMaps.Lookup(l2.frag.value.stmts.unclocked, p) == []
  {
    var l1 := Lower(env, s1, pid, counter).value;
    LowerPlaced(env, s1, pid, counter);
    LowerPlaced(env, s2, pid, l1.counter);
  }

  /** An if yields exactly one if statement per configuration of either
      branch, testing the lowered condition, and no others. */
  lemma IfOnePerConfig(env: Env, s: Hdl.Stmt, pid: int, counter: nat)
    requires Idempotent(env) && ForeignPlaced(env)
    requires s.IfStmt? && Lower(env, s, pid, counter).Ok?
    ensures LowerSeq(env, s.thenDo, 0, pid, counter, Empty(), NullPointer).Ok?
    ensures var (tc, n1) := LowerSeq(env, s.thenDo, 0, pid, counter, Empty(), NullPointer).value;
            LowerSeq(env, s.elseDo, 0, pid, n1, Empty(), NullPointer).Ok?
    ensures var c := Lower(env, s, pid, counter).value.frag.value;
            var (tc, n1) := LowerSeq(env, s.thenDo, 0, pid, counter, Empty(), NullPointer).value;
            var ec := LowerSeq(env, s.elseDo, 0, pid, n1, Empty(), NullPointer).value.0;
            forall k :: && (k in c.stmts.clocked.keys <==> k in tc.stmts.clocked.keys || k in ec.stmts.clocked.keys)
                        && (k in c.stmts.clocked.keys ==>
                              var b := OrderedMaps.Lookup(c.stmts.clocked, k);
                              |b| == 1 && b[0].If? && Ok(b[0].cond) == Expressions.Lower(env, s.ifExp)
                              && b[0].thenStmts == OrderedMaps.Lookup(tc.stmts.clocked, k)
                              && b[0].elseStmts == OrderedMaps.Lookup(ec.stmts.clocked, k))
  {
    var (tc, n1) := LowerSeq(env, s.thenDo, 0, pid, counter, Empty(), NullPointer).value;
    var ec := LowerSeq(env, s.elseDo, 0, pid, n1, Empty(), NullPointer).value.0;
    LowerSeqPlaced(env, s.thenDo, 0, pid, counter, Empty(), NullPointer, counter);
    LowerSeqPlaced(env, s.elseDo, 0, pid, n1, Empty(), NullPointer, n1);
    NormalKeys(env, tc);
    NormalKeys(env, ec);
    Partition.IfPartition(env, s.ifExp, pid, s, tc, ec);
  }

  /** A switch yields exactly one case statement per configuration of any
      of its cases, with one alternative per case in order, each holding
      that case's statements of the configuration. */
  lemma SwitchOnePerConfig(env: Env, s: Hdl.Stmt, pid: int, counter: nat)
    requires Idempotent(env) && ForeignPlaced(env)
    requires s.Switch? && Lower(env, s, pid, counter).Ok?
    ensures LowerCases(env, s.cases, 0, pid, counter).Ok?
    ensures var c := Lower(env, s, pid, counter).value.frag.value;
            var frags := LowerCases(env, s.cases, 0, pid, counter).value.0;
            && |frags| == |s.cases|
            && forall k :: && (k in c.stmts.clocked.keys <==> exists i :: 0 <= i < |frags| && k in frags[i].stmts.clocked.keys)
                           && (k in c.stmts.clocked.keys ==>
                                 var b := OrderedMaps.Lookup(c.stmts.clocked, k);
                                 && |b| == 1 && b[0].Case? && Ok(b[0].caseExp) == Expressions.Lower(env, s.caseExp)
                                 && |b[0].alternatives| == |s.cases|
                                 && forall i :: 0 <= i < |frags| ==> b[0].alternatives[i].stmts == OrderedMaps.Lookup(frags[i].stmts.clocked, k))
  {
    var width := Partition.SwitchWidth(env, s.caseExp).value;
    var caseExp := Expressions.Lower(env, s.caseExp).value;
    var frags := LowerCases(env, s.cases, 0, pid, counter).value.0;
    LowerCasesNormal(env, s.cases, 0, pid, counter);
    Partition.SwitchPartition(env, pid, s, width, caseExp, Labels(s.cases), frags);
  }

  /** A loop yields exactly one for statement per configuration of its
      body, over the first range counting up, wrapping that configuration's
      statements. */
  lemma ForOnePerConfig(env: Env, s: Hdl.Stmt, pid: int, counter: nat)
    requires Idempotent(env) && ForeignPlaced(env)
    requires s.ForLoop? && Lower(env, s, pid, counter).Ok?
    ensures LowerSeq(env, s.dos, 0, pid, counter, Empty(), NullPointer).Ok?
    ensures var c := Lower(env, s, pid, counter).value.frag.value;
            var body := LowerSeq(env, s.dos, 0, pid, counter, Empty(), NullPointer).value.0;
            && c.stmts.clocked.keys == body.stmts.clocked.keys
            && forall k :: k in c.stmts.clocked.keys ==>
                 var b := OrderedMaps.Lookup(c.stmts.clocked, k);
                 && |b| == 1 && b[0].For? && b[0].loopParam == env.vhdlName(s.param)
                 && |s.ranges| > 0 && Ok(b[0].loopRange) == Expressions.LowerRange(env, s.ranges[0], TO)
                 && b[0].body == OrderedMaps.Lookup(body.stmts.clocked, k)
  {
    var body := LowerSeq(env, s.dos, 0, pid, counter, Empty(), NullPointer).value.0;
    LowerSeqPlaced(env, s.dos, 0, pid, counter, Empty(), NullPointer, counter);
    NormalKeys(env, body);
    Partition.ForPartition(env, s.param, s.ranges, pid, s, body);
  }

  /** How deep a nest of single for-generate statements goes. */
  function Depth(g: Concurrent): nat {
    if g.ForGenerate? && |g.stmts| == 1 then 1 + Depth(g.stmts[0]) else 0
  }

  /** The statement at the bottom of a nest of for-generate statements. */
  function Innermost(g: Concurrent): Concurrent {
    if g.ForGenerate? && |g.stmts| == 1 then Innermost(g.stmts[0]) else g
  }

  /** The level `j` of a nest, counting from the outermost. */
  function Level(g: Concurrent, j: nat): Concurrent
    requires j < Depth(g)
  {
    if j == 0 then g else Level(g.stmts[0], j - 1)
  }

  /** An instance array has one for-generate level per dimension, outermost
      first, all labelled after the instance, the level of dimension i with
      the i-th index variable and range 0 to the dimension minus one; the
      instance sits innermost. */
  lemma GenerateNesting(env: Env, instName: string, dims: seq<Hdl.Expr>, from: nat, inner: Concurrent)
    requires from <= |dims| && Depth(inner) == 0
    requires Generate(env, instName, dims, from, inner).Ok?
    ensures var g := Generate(env, instName, dims, from, inner).value;
            && Depth(g) == |dims| - from && Innermost(g) == inner
            && forall j :: 0 <= j < |dims| - from ==> GenLevel(env, instName, dims, from + j, Level(g, j))
  {
    GenerateDepth(env, instName, dims, from, inner);
    var g := Generate(env, instName, dims, from, inner).value;
    forall j | 0 <= j < |dims| - from ensures GenLevel(env, instName, dims, from + j, Level(g, j)) {
      GenerateLevel(env, instName, dims, from, inner, j);
    }
  }

  lemma {:induction false} GenerateDepth(env: Env, instName: string, dims: seq<Hdl.Expr>, from: nat, inner: Concurrent)
    requires from <= |dims| && Depth(inner) == 0
    requires Generate(env, instName, dims, from, inner).Ok?
    ensures var g := Generate(env, instName, dims, from, inner).value;
            Depth(g) == |dims| - from && Innermost(g) == inner
    decreases |dims| - from
  {
    if from < |dims| {
      GenerateDepth(env, instName, dims, from + 1, inner);
    }
  }

  lemma {:induction false} GenerateLevel(env: Env, instName: string, dims: seq<Hdl.Expr>, from: nat, inner: Concurrent, j: nat)
    requires from + j < |dims| && Depth(inner) == 0
    requires Generate(env, instName, dims, from, inner).Ok?
    ensures GenerateDepthIs(env, instName, dims, from, inner)
    ensures GenLevel(env, instName, dims, from + j, Level(Generate(env, instName, dims, from, inner).value, j))
    decreases j
  {
    GenerateDepth(env, instName, dims, from, inner);
    var g := Generate(env, instName, dims, from, inner).value;
    if j > 0 {
      GenerateStep(env, instName, dims, from, inner, j);
      GenerateLevel(env, instName, dims, from + 1, inner, j - 1);
      assert (from + 1) + (j - 1) == from + j;
    } else {
      GenerateTop(env, instName, dims, from, inner);
      assert Level(g, 0) == g;
    }
  }

  /** Below the outermost level, the nest is the nest of the next dimension. */
  lemma GenerateStep(env: Env, instName: string, dims: seq<Hdl.Expr>, from: nat, inner: Concurrent, j: nat)
    requires 0 < j && from + j < |dims| && Depth(inner) == 0
    requires Generate(env, instName, dims, from, inner).Ok?
    ensures Generate(env, instName, dims, from + 1, inner).Ok?
    ensures j < Depth(Generate(env, instName, dims, from, inner).value)
    ensures Level(Generate(env, instName, dims, from, inner).value, j) == Level(Generate(env, instName, dims, from + 1, inner).value, j - 1)
  {
    GenerateDepth(env, instName, dims, from, inner);
    var g := Generate(env, instName, dims, from, inner).value;
    assert g.stmts[0] == Generate(env, instName, dims, from + 1, inner).value;
  }

  /** The outermost level of a nest is the level of its first dimension. */
  lemma GenerateTop(env: Env, instName: string, dims: seq<Hdl.Expr>, from: nat, inner: Concurrent)
    requires from < |dims|
    requires Generate(env, instName, dims, from, inner).Ok?
    ensures GenLevel(env, instName, dims, from, Generate(env, instName, dims, from, inner).value)
  {
  }

  /** The nest from `from` on has one level per remaining dimension. */
  predicate GenerateDepthIs(env: Env, instName: string, dims: seq<Hdl.Expr>, from: nat, inner: Concurrent)
    requires from <= |dims|
  {
    Generate(env, instName, dims, from, inner).Ok? ==> Depth(Generate(env, instName, dims, from, inner).value) == |dims| - from
  }

  /** Level `i` of the nest of an instance array: a for-generate labelled
      after the instance, with the i-th index variable, ranging from 0 to
      the i-th dimension minus one. */
  predicate GenLevel(env: Env, instName: string, dims: seq<Hdl.Expr>, i: nat, l: Concurrent)
    requires i < |dims|
  {
    && l.ForGenerate? && l.genLabel == "generate_" + instName
    && Declarations.AsIndex(i) == Ok(l.index)
    && Expressions.LowerRange(env, DimRange(dims[i]), TO) == Ok(l.genRange)
  }
}
