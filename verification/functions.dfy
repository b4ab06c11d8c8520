/** Function calls in statement position (VHDLFunctions.toVHDLStatement and
    toOutputStatement): the simulation calls wait, waitFor, waitUntil and
    pulse, and the assertThat built-in.  The providers are asked in order and
    the first fragment returned wins. */
module Functions {
  import opened Wrappers
  import Hdl
  import opened Vhdl
  import opened VhdlContext
  import OrderedMaps
  import Strings
  import Literals
  import Expressions
  import Assignments
  import opened Env

  // ----- assertion severities -----

  /** The severity level an assertThat names by the last segment of its
      second argument; any other name leaves the severity out. */
  function SeverityOf(name: string): (r: Option<Severity>)
    ensures r.Some? <==> name in {"FATAL", "ERROR", "WARNING", "INFO"}
  {
    match name
    case "FATAL" => Some(Failure)
    case "ERROR" => Some(Error)
    case "WARNING" => Some(Warning)
    case "INFO" => Some(Note)
    case _ => None
  }

  /** The PSHDL name of each VHDL severity level. */
  function SeverityName(s: Severity): (r: string)
    ensures |r| >= 4
  {
    match s
    case Failure => "FATAL"
    case Error => "ERROR"
    case Warning => "WARNING"
    case Note => "INFO"
  }

  /** The severity table is a bijection between the four PSHDL names and the
      four VHDL levels. */
  lemma SeverityTable(name: string, s: Severity)
    ensures SeverityOf(SeverityName(s)) == Some(s)
    ensures SeverityOf(name) == Some(s) <==> name == SeverityName(s)
  {
  }

  // ----- pulse helpers -----

  /** `x` is `e` itself or sits under a chain of manipulations of `e`. */
  predicate Under(e: Hdl.Expr, x: Hdl.Expr) {
    e == x || (e.Manip? && Under(e.target, x))
  }

  /** getVarRef: the variable reference found by looking through casts and
      negations. */
  function VarRefOf(e: Hdl.Expr): (r: Option<Hdl.Ref>)
    ensures r.Some? ==> Under(e, Hdl.VarRef(r.value))
    ensures r.None? ==> forall ref :: !Under(e, Hdl.VarRef(ref))
    ensures e.VarRef? ==> r == Some(e.ref)
  {
    match e
    case VarRef(ref) => Some(ref)
    case Manip(_, target, _) => VarRefOf(target)
    case _ => None
  }

  /** setValue: the assignment of the bit `v` to the reference. */
  function SetValue(ref: Hdl.Ref, v: int): (r: Hdl.Stmt)
    ensures r.Assignment? && r.left == Hdl.VarRef(ref)
    ensures r.right.Manip? && r.right.mop == Hdl.CAST && r.right.castTo == Some(Hdl.Primitive(Hdl.BIT, None))
    ensures r.right.target.Lit? && r.right.target.lit.value == Some(v)
  {
    Hdl.Assignment(Hdl.VarRef(ref), Hdl.Manip(Hdl.CAST, Hdl.Lit(Hdl.IntLiteral(v)), Some(Hdl.Primitive(Hdl.BIT, None))))
  }

  /** The waitFor call a pulse builds from its second and third arguments. */
  function WaitForCall(amount: Hdl.Expr, unit: Hdl.Expr): (r: Hdl.Call)
    ensures Hdl.LastSegment(r.name) == Ok("waitFor") && r.params == [amount, unit]
  {
    Hdl.Call(["waitFor"], [amount, unit])
  }

  /** The one statement an assignment lowers to. */
  function AssignedStmt(env: Env, a: Hdl.Stmt, pid: int): (r: Result<SeqStmt>)
    requires a.Assignment?
    ensures r.Ok? ==> Assignments.AssignStmt(env, a.left, a.right) == r
  {
    var f :- Assignments.LowerAssignment(env, a.left, a.right, pid, a);
    Assignments.AssignmentRouting(env, a.left, a.right, pid, a);
    GetStatement(f)
  }

  /** The fragment of a simulation statement: the process has no
      sensitivity list and holds just this statement, paired with its
      source. */
  function Quiet(pid: int, st: SeqStmt, source: Hdl.Stmt): (r: Ctx)
    ensures Valid(r) && Consistent(r)
    ensures r.decls == Empty().decls.(noSensitivity := {pid})
    ensures r.stmts.clocked == Empty().stmts.clocked && r.stmts.resets == Empty().stmts.resets
    ensures r.stmts.concurrent == []
    ensures r.stmts.unclocked.keys == [pid] && r.stmts.sensitive.keys == [pid]
    ensures OrderedMaps.Lookup(r.stmts.unclocked, pid) == [st]
    ensures OrderedMaps.Lookup(r.stmts.sensitive, pid) == [source]
  {
    var quiet := SetNoSensitivity(Empty(), pid);
    assert quiet.stmts == Empty().stmts;
    AddUnclocked(quiet, pid, st, source)
  }

  /** One more statement of the same process, after the first. */
  function Then(c: Ctx, pid: int, st: SeqStmt, source: Hdl.Stmt): (r: Ctx)
    requires Valid(c) && Consistent(c) && pid in c.stmts.unclocked.entries
    ensures Valid(r) && Consistent(r)
    ensures r.decls == c.decls && r.stmts.clocked == c.stmts.clocked
    ensures r.stmts.resets == c.stmts.resets && r.stmts.concurrent == c.stmts.concurrent
    ensures r.stmts.unclocked.keys == c.stmts.unclocked.keys && r.stmts.sensitive.keys == c.stmts.sensitive.keys
    ensures pid in r.stmts.unclocked.entries
    ensures OrderedMaps.Lookup(r.stmts.unclocked, pid) == OrderedMaps.Lookup(c.stmts.unclocked, pid) + [st]
    ensures OrderedMaps.Lookup(r.stmts.sensitive, pid) == OrderedMaps.Lookup(c.stmts.sensitive, pid) + [source]
  {
    assert OrderedMaps.Fresh([pid], c.stmts.unclocked.entries.Keys) == [];
    AddUnclocked(c, pid, st, source)
  }

  // ----- the providers -----

  /** The pulse call is the only one that asks the providers again; its
      rank bounds that nesting. */
  function Rank(call: Hdl.Call): nat {
    if Hdl.LastSegment(call.name) == Ok("pulse") then 1 else 0
  }

  /** toOutputStatement from provider `i` on: the first provider that
      returns a fragment decides. */
  function ProvideStmt(env: Env, call: Hdl.Call, pid: int, i: nat): (r: Result<Option<Ctx>>)
    requires i <= |env.providers|
    ensures r.Ok? && r.value.Some? ==> Valid(r.value.value) && Consistent(r.value.value)
    decreases Rank(call), 1, |env.providers| - i
  {
    if i == |env.providers| then Ok(None)
    else
      var answer :-
        match env.providers[i]
        case Builtin => BuiltinStmt(env, call, pid)
        case Foreign(_, onStmt) => Ok(onStmt(call, pid));
      if answer.Some? then Ok(answer) else ProvideStmt(env, call, pid, i + 1)
  }

  /** VHDLFunctions.toVHDLStatement. */
  function BuiltinStmt(env: Env, call: Hdl.Call, pid: int): (r: Result<Option<Ctx>>)
    ensures r.Ok? && r.value.Some? ==> Valid(r.value.value) && Consistent(r.value.value)
    decreases Rank(call), 0, 1
  {
    var name :- Hdl.LastSegment(call.name);
    var p := call.params;
    if name == "wait" then
      Ok(Some(Quiet(pid, Wait(None, None), Hdl.CallStmt(call))))
    else if name == "waitFor" then
      var ws :- WaitForStmt(env, p);
      Ok(Some(Quiet(pid, ws, Hdl.CallStmt(call))))
    else if name == "pulse" then
      var c :- Pulse(env, p, pid);
      Ok(Some(c))
    else if name == "waitUntil" then
      if |p| == 0 then Err(IndexOutOfBounds)
      else
        var until :- Expressions.Lower(env, p[0]);
        Ok(Some(Quiet(pid, Wait(Some(until), None), Hdl.CallStmt(call))))
    else if name == "assertThat" then
      var a :- AssertionStmt(env, p);
      Ok(Some(AddUnclocked(Empty(), pid, a, Hdl.CallStmt(call))))
    else Ok(None)
  }

  /** pulse(x, amount, UNIT) expands to exactly four statements of its
      process, in order: x is set to 0, the statement of waitFor(amount,
      UNIT) as the providers lower it, x is set to 1, and the same wait
      again; each is paired with the statement it came from, and the process
      loses its sensitivity list. */
  function Pulse(env: Env, p: seq<Hdl.Expr>, pid: int): (r: Result<Ctx>)
    ensures r.Ok? ==> Valid(r.value) && Consistent(r.value)
    ensures r.Ok? ==> |p| >= 3 && PulseTarget(p).Ok?
    ensures r.Ok? ==>
              var ref := PulseTarget(p).value;
              var w := WaitForCall(p[1], p[2]);
              var ss := OrderedMaps.Lookup(r.value.stmts.unclocked, pid);
              && |ss| == 4
              && Assignments.AssignStmt(env, Hdl.VarRef(ref), SetValue(ref, 0).right) == Ok(ss[0])
              && Assignments.AssignStmt(env, Hdl.VarRef(ref), SetValue(ref, 1).right) == Ok(ss[2])
              && ss[1] == ss[3]
              && ProvideStmt(env, w, pid, 0).Ok? && ProvideStmt(env, w, pid, 0).value.Some?
              && GetStatement(ProvideStmt(env, w, pid, 0).value.value) == Ok(ss[1])
              && OrderedMaps.Lookup(r.value.stmts.sensitive, pid)
                   == [SetValue(ref, 0), Hdl.CallStmt(w), SetValue(ref, 1), Hdl.CallStmt(w)]
    ensures r.Ok? ==>
              && r.value.decls == Empty().decls.(noSensitivity := {pid})
              && r.value.stmts.clocked == Empty().stmts.clocked && r.value.stmts.resets == Empty().stmts.resets
              && r.value.stmts.concurrent == []
              && r.value.stmts.unclocked.keys == [pid] && r.value.stmts.sensitive.keys == [pid]
    ensures |p| == 0 ==> r == Err(IndexOutOfBounds)
    decreases 1, 0, 0
  {
    var ref :- PulseTarget(p);
    var a0 := SetValue(ref, 0);
    var s0 :- AssignedStmt(env, a0, pid);
    if |p| < 3 then Err(IndexOutOfBounds)
    else
      var w := WaitForCall(p[1], p[2]);
      var answer :- ProvideStmt(env, w, pid, 0);
      var fw :- Need(answer, NullPointer);
      var s1 :- GetStatement(fw);
      var a1 := SetValue(ref, 1);
      var s2 :- AssignedStmt(env, a1, pid);
      Ok(Pulsed(pid, s0, s1, s2, a0, Hdl.CallStmt(w), a1))
  }

  /** The fragment of a pulse once its three statements are lowered. */
  function Pulsed(pid: int, low: SeqStmt, wait: SeqStmt, high: SeqStmt,
                  lowSource: Hdl.Stmt, waitSource: Hdl.Stmt, highSource: Hdl.Stmt): (r: Ctx)
    ensures Valid(r) && Consistent(r)
    ensures OrderedMaps.Lookup(r.stmts.unclocked, pid) == [low, wait, high, wait]
    ensures OrderedMaps.Lookup(r.stmts.sensitive, pid) == [lowSource, waitSource, highSource, waitSource]
    ensures r.decls == Empty().decls.(noSensitivity := {pid})
    ensures r.stmts.clocked == Empty().stmts.clocked && r.stmts.resets == Empty().stmts.resets
    ensures r.stmts.concurrent == []
    ensures r.stmts.unclocked.keys == [pid] && r.stmts.sensitive.keys == [pid]
  {
    var c0 := Quiet(pid, low, lowSource);
    var c1 := Then(c0, pid, wait, waitSource);
    var c2 := Then(c1, pid, high, highSource);
    Then(c2, pid, wait, waitSource)
  }

  /** The wait statement of waitFor(amount, UNIT): the amount must be a
      constant and the unit an enum literal. */
  function WaitForStmt(env: Env, p: seq<Hdl.Expr>): (r: Result<SeqStmt>)
    ensures r.Ok? ==> |p| >= 2 && p[1].EnumRef? && env.valueOf(p[0]).Some?
    ensures r.Ok? ==> r.value.Wait? && r.value.until.None? && r.value.forTime.Some?
    ensures r.Ok? ==> |p[1].literal| > 0 && Literals.Lower(Hdl.IntLiteral(env.valueOf(p[0]).value)).Ok?
    ensures r.Ok? ==> r.value.forTime.value == Physical(Literals.Lower(Hdl.IntLiteral(env.valueOf(p[0]).value)).value,
                                                       p[1].literal[|p[1].literal| - 1])
    ensures |p| < 2 ==> r == Err(IndexOutOfBounds)
    ensures |p| >= 2 && !p[1].EnumRef? ==> r == Err(ClassCast)
    ensures |p| >= 2 && p[1].EnumRef? && env.valueOf(p[0]).None? ==> r == Err(NotConstant)
  {
    if |p| < 2 then Err(IndexOutOfBounds)
    else if !p[1].EnumRef? then Err(ClassCast)
    else
      var v :- Need(env.valueOf(p[0]), NotConstant);
      var amount :- Literals.Lower(Hdl.IntLiteral(v));
      var unit :- Hdl.LastSegment(p[1].literal);
      Ok(Wait(None, Some(Physical(amount, unit))))
  }

  /** The reference a pulse drives. */
  function PulseTarget(p: seq<Hdl.Expr>): (r: Result<Hdl.Ref>)
    ensures r.Ok? ==> |p| > 0 && Under(p[0], Hdl.VarRef(r.value))
    ensures |p| == 0 ==> r == Err(IndexOutOfBounds)
    ensures |p| > 0 && r.Err? ==> r == Err(NullPointer) && forall ref :: !Under(p[0], Hdl.VarRef(ref))
  {
    if |p| == 0 then Err(IndexOutOfBounds) else Need(VarRefOf(p[0]), NullPointer)
  }

  /** The assertion statement of assertThat(condition, SEVERITY, message). */
  function AssertionStmt(env: Env, p: seq<Hdl.Expr>): (r: Result<SeqStmt>)
    ensures r.Ok? ==> |p| >= 3 && p[1].EnumRef? && |p[1].literal| > 0
    ensures r.Ok? ==> Expressions.Lower(env, p[0]).Ok? && Expressions.Lower(env, p[2]).Ok?
    ensures r.Ok? ==> r == Ok(Assertion(Expressions.Lower(env, p[0]).value, Expressions.Lower(env, p[2]).value,
                                        match SeverityOf(p[1].literal[|p[1].literal| - 1])
                                        case Some(s) => Some(SeverityLevel(s))
                                        case None => None))
    ensures |p| < 3 && (|p| == 0 || Expressions.Lower(env, p[0]).Ok?) ==> r == Err(IndexOutOfBounds)
  {
    if |p| == 0 then Err(IndexOutOfBounds)
    else
      var condition :- Expressions.Lower(env, p[0]);
      if |p| < 3 then Err(IndexOutOfBounds)
      else
        var report :- Expressions.Lower(env, p[2]);
        if !p[1].EnumRef? then Err(ClassCast)
        else
          var level :- Hdl.LastSegment(p[1].literal);
          Ok(Assertion(condition, report, match SeverityOf(level) case Some(s) => Some(SeverityLevel(s)) case None => None))
  }

  /** What one provider answers. */
  function StmtAnswer(env: Env, call: Hdl.Call, pid: int, p: Provider): Result<Option<Ctx>> {
    match p
    case Builtin => BuiltinStmt(env, call, pid)
    case Foreign(_, onStmt) => Ok(onStmt(call, pid))
  }

  /** The first provider that answers (or throws) decides the call. */
  lemma {:induction false} ProvideStmtFirstAnswer(env: Env, call: Hdl.Call, pid: int, i: nat, k: nat)
    requires i <= k < |env.providers|
    requires forall j :: i <= j < k ==> StmtAnswer(env, call, pid, env.providers[j]) == Ok(None)
    requires StmtAnswer(env, call, pid, env.providers[k]) != Ok(None)
    ensures ProvideStmt(env, call, pid, i) == StmtAnswer(env, call, pid, env.providers[k])
    decreases k - i
  {
    if i < k {
      assert StmtAnswer(env, call, pid, env.providers[i]) == Ok(None);
      ProvideStmtFirstAnswer(env, call, pid, i + 1, k);
    }
  }

  /** When no provider answers, the call yields nothing; the statement
      lowering then reports the missing fragment. */
  lemma {:induction false} ProvideStmtNoAnswer(env: Env, call: Hdl.Call, pid: int, i: nat)
    requires i <= |env.providers|
    requires forall j :: i <= j < |env.providers| ==> StmtAnswer(env, call, pid, env.providers[j]) == Ok(None)
    ensures ProvideStmt(env, call, pid, i) == Ok(None)
    decreases |env.providers| - i
  {
    if i < |env.providers| {
      assert StmtAnswer(env, call, pid, env.providers[i]) == Ok(None);
      ProvideStmtNoAnswer(env, call, pid, i + 1);
    }
  }

  // ----- what the simulation calls produce -----

  /** The four simulation calls mark the process as having no sensitivity
      list and add statements only to the unclocked bucket of that process:
      no clocked or reset statement, no concurrent statement and no other
      declaration. */
  lemma SimulationCallsStayInProcess(env: Env, call: Hdl.Call, pid: int)
    requires Hdl.LastSegment(call.name).Ok?
    requires Hdl.LastSegment(call.name).value in {"wait", "waitFor", "waitUntil", "pulse"}
    requires BuiltinStmt(env, call, pid).Ok?
    ensures BuiltinStmt(env, call, pid).value.Some?
    ensures var c := BuiltinStmt(env, call, pid).value.value;
            && c.decls == Empty().decls.(noSensitivity := {pid})
            && c.stmts.clocked == Empty().stmts.clocked && c.stmts.resets == Empty().stmts.resets
            && c.stmts.concurrent == []
            && c.stmts.unclocked.keys == [pid] && c.stmts.sensitive.keys == [pid]
  {
  }

  /** waitFor with a constant amount that fits a Java int waits for the
      decimal text of that amount in the unit named by its second argument. */
  lemma WaitForAmount(env: Env, p: seq<Hdl.Expr>, v: int)
    requires |p| >= 2 && p[1].EnumRef? && |p[1].literal| > 0 && env.valueOf(p[0]) == Some(v)
    requires -Literals.Pow2(31) <= v < Literals.Pow2(31)
    ensures WaitForStmt(env, p).Ok?
    ensures var t := WaitForStmt(env, p).value.forTime.value;
            && t.amount.DecimalLit? && Strings.ParseInt(t.amount.decimal, 10) == Some(v)
            && t.unit == p[1].literal[|p[1].literal| - 1]
  {
    Literals.IntLiteralIsDecimal(v);
  }

  /** assertThat adds one assertion to the unclocked bucket of its process
      and, unlike the simulation calls, leaves the sensitivity alone. */
  lemma AssertThatShape(env: Env, call: Hdl.Call, pid: int)
    requires Hdl.LastSegment(call.name) == Ok("assertThat")
    requires BuiltinStmt(env, call, pid).Ok?
    ensures AssertionStmt(env, call.params).Ok?
    ensures var c := BuiltinStmt(env, call, pid).value.value;
            && c.decls == Empty().decls
            && c.stmts.clocked == Empty().stmts.clocked && c.stmts.concurrent == []
            && c.stmts.unclocked.keys == [pid]
            && OrderedMaps.Lookup(c.stmts.unclocked, pid) == [AssertionStmt(env, call.params).value]
            && OrderedMaps.Lookup(c.stmts.sensitive, pid) == [Hdl.CallStmt(call)]
  {
  }

  /** Every other name is left to the next provider. */
  lemma OtherCallsDecline(env: Env, call: Hdl.Call, pid: int)
    requires Hdl.LastSegment(call.name).Ok?
    requires Hdl.LastSegment(call.name).value !in {"wait", "waitFor", "waitUntil", "pulse", "assertThat"}
    ensures BuiltinStmt(env, call, pid) == Ok(None)
  {
  }
}
