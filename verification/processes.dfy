/** The processes of an architecture (VHDLPackageExtension.toVHDL(HDLUnit)):
    one combinational process per process id, with the sensitivity list
    computed from the source statements of that id, followed by one clocked
    process per register configuration, shaped by its reset kind.

    Finding the references inside a statement (getAllObjectsOf) needs the
    whole input tree; it is a parameter of type `Finder` here. */
module Processes {
  import opened Wrappers
  import Hdl
  import opened Vhdl
  import opened VhdlContext
  import OrderedMaps
  import SortedSets
  import Expressions
  import Assignments
  import opened Env

  /** One variable or interface reference found inside a sensitive
      statement, with the left side of the assignment that directly
      contains it, when an assignment does. */
  datatype Occurrence = Occurrence(ref: Hdl.Expr, assignedTo: Option<Hdl.Expr>)

  /** The references inside a statement, nested ones included. */
  type Finder = Hdl.Stmt -> seq<Occurrence>

  // ----- sensitivity lists -----

  /** The directions whose variables never enter a sensitivity list. */
  predicate NotSensitive(d: Hdl.Direction) {
    d == Hdl.HIDDEN || d == Hdl.PARAMETER || d == Hdl.CONSTANT
  }

  /** The variable a reference resolves to (resolveVarForced, and the
      resolveVar of an assignment's left side); both throw when there is
      none. */
  function Target(e: Hdl.Expr): (r: Result<Hdl.Variable>)
    ensures r.Ok? <==> Assignments.RefOf(e).Ok? && Assignments.RefOf(e).value.target.Some?
    ensures r.Ok? ==> r.value == Assignments.RefOf(e).value.target.value
  {
    var ref :- Assignments.RefOf(e);
    Need(ref.target, Fault.Unresolved)
  }

  /** getVHDLName of a reference: the escaped last segment of a variable
      reference, the mapped name of an interface reference. */
  function RefName(env: Env, e: Hdl.Expr): Result<string> {
    match e
    case VarRef(ref) =>
      var n :- Hdl.LastSegment(ref.name);
      Ok(env.vhdlName(n))
    case InterfaceRef(hIf, _, iref) => Ok(env.mapName(hIf, iref.name))
    case _ => Err(ClassCast)
  }

  /** A variable that may be sensitive at all: not a memory, declared by a
      variable declaration, and of a direction other than hidden, parameter
      and constant. */
  predicate Eligible(v: Hdl.Variable) {
    v.memory.None? && v.decl.Some? && !NotSensitive(v.decl.value.direction)
  }

  /** What one reference adds to the sensitivity list.  The checks run in
      the order of the code: the reference's variable first, then the
      assignment it sits in. */
  function Contribution(env: Env, o: Occurrence): (r: Result<Option<string>>)
    ensures Target(o.ref).Err? ==> r == Err(Target(o.ref).fault)
    ensures Target(o.ref).Ok? && !Eligible(Target(o.ref).value) ==> r == Ok(None)
    ensures r.Ok? && r.value.Some? ==>
              && Eligible(Target(o.ref).value)
              && RefName(env, o.ref) == Ok(r.value.value)
              && (o.assignedTo.Some? ==>
                    o.assignedTo.value != o.ref && Target(o.assignedTo.value).Ok?
                    && Target(o.assignedTo.value).value.register.None?)
    ensures Target(o.ref).Ok? && Eligible(Target(o.ref).value) && o.assignedTo.None? ==>
              r == (var n :- RefName(env, o.ref); Ok(Some(n)))
    ensures Target(o.ref).Ok? && Eligible(Target(o.ref).value) && o.assignedTo.Some?
            && Target(o.assignedTo.value).Ok?
            && (Target(o.assignedTo.value).value.register.Some? || o.assignedTo.value == o.ref) ==>
              r == Ok(None)
  {
    var v :- Target(o.ref);
    if !Eligible(v) then Ok(None)
    else match o.assignedTo
      case None =>
        var n :- RefName(env, o.ref);
        Ok(Some(n))
      case Some(left) =>
        var lv :- Target(left);
        if lv.register.Some? || left == o.ref then Ok(None)
        else
          var n :- RefName(env, o.ref);
          Ok(Some(n))
  }

  /** No reference of the list throws. */
  predicate AllContribute(env: Env, os: seq<Occurrence>) {
    forall i :: 0 <= i < |os| ==> Contribution(env, os[i]).Ok?
  }

  /** Some reference of the list adds the name. */
  ghost predicate Contributed(env: Env, os: seq<Occurrence>, n: string) {
    exists i :: 0 <= i < |os| && Contribution(env, os[i]) == Ok(Some(n))
  }

  /** The TreeSet of names, built one reference after the other; the first
      reference that throws ends the search. */
  function Gather(env: Env, os: seq<Occurrence>, acc: seq<string>): (r: Result<seq<string>>)
    requires SortedSets.Sorted(SortedSets.Less, acc)
    ensures r.Ok? <==> AllContribute(env, os)
    ensures r.Ok? ==> SortedSets.Sorted(SortedSets.Less, r.value)
    ensures r.Ok? ==> forall n :: n in r.value <==> n in acc || Contributed(env, os, n)
    decreases |os|
  {
    if |os| == 0 then Ok(acc)
    else
      var c :- Contribution(env, os[0]);
      SortedSets.StringOrder();
      var acc' := if c.Some? then SortedSets.Insert(SortedSets.Less, c.value, acc) else acc;
      SortedSets.InsertSorted(SortedSets.Less, c.GetOr(""), acc);
      var rest := Gather(env, os[1..], acc');
      GatherStep(env, os, acc, acc', rest);
      rest
  }

  /** The inductive step of Gather's contract. */
  lemma GatherStep(env: Env, os: seq<Occurrence>, acc: seq<string>, acc': seq<string>, rest: Result<seq<string>>)
    requires |os| > 0 && Contribution(env, os[0]).Ok?
    requires forall n :: n in acc' <==> n in acc || Contribution(env, os[0]) == Ok(Some(n))
    requires rest.Ok? <==> AllContribute(env, os[1..])
    requires rest.Ok? ==> forall n :: n in rest.value <==> n in acc' || Contributed(env, os[1..], n)
    ensures rest.Ok? <==> AllContribute(env, os)
    ensures rest.Ok? ==> forall n :: n in rest.value <==> n in acc || Contributed(env, os, n)
  {
    if forall i :: 0 <= i < |os| ==> Contribution(env, os[i]).Ok? {
      assert forall i :: 0 <= i < |os[1..]| ==> Contribution(env, os[1..][i]).Ok? by {
        forall i | 0 <= i < |os[1..]| ensures Contribution(env, os[1..][i]).Ok? {
          assert os[1..][i] == os[i + 1];
        }
      }
    }
    if rest.Ok? {
      forall i | 0 <= i < |os| ensures Contribution(env, os[i]).Ok? {
        if i > 0 {
          assert os[1..][i - 1] == os[i];
        }
      }
      forall n ensures n in rest.value <==> n in acc || Contributed(env, os, n) {
        if Contributed(env, os[1..], n) {
          var i :| 0 <= i < |os[1..]| && Contribution(env, os[1..][i]) == Ok(Some(n));
          assert os[1..][i] == os[i + 1];
        }
        if Contributed(env, os, n) {
          var i :| 0 <= i < |os| && Contribution(env, os[i]) == Ok(Some(n));
          if i > 0 {
            assert os[1..][i - 1] == os[i];
          }
        }
      }
    }
  }

  /** The references of a list of statements, statement by statement. */
  function Occurrences(find: Finder, ss: seq<Hdl.Stmt>): (r: seq<Occurrence>)
    ensures forall o :: o in r <==> exists i :: 0 <= i < |ss| && o in find(ss[i])
  {
    if |ss| == 0 then []
    else
      var rest := Occurrences(find, ss[1..]);
      assert forall o :: o in rest <==> exists i :: 1 <= i < |ss| && o in find(ss[i]) by {
        forall o ensures o in rest <==> exists i :: 1 <= i < |ss| && o in find(ss[i]) {
          if o in rest {
            var i :| 0 <= i < |ss[1..]| && o in find(ss[1..][i]);
            assert ss[1..][i] == ss[i + 1];
          }
          if exists i :: 1 <= i < |ss| && o in find(ss[i]) {
            var i :| 1 <= i < |ss| && o in find(ss[i]);
            assert ss[1..][i - 1] == ss[i];
          }
        }
      }
      find(ss[0]) + rest
  }

  /** createSensitivyList: empty for a process id marked as needing none;
      otherwise the sorted, duplicate-free names that the references in the
      source statements of the process contribute. */
  function SensitivityList(env: Env, find: Finder, c: Ctx, pid: int): (r: Result<seq<string>>)
    ensures pid in c.decls.noSensitivity ==> r == Ok([])
    ensures r.Ok? ==> SortedSets.Sorted(SortedSets.Less, r.value)
    ensures pid !in c.decls.noSensitivity ==>
              var os := Occurrences(find, OrderedMaps.Lookup(c.stmts.sensitive, pid));
              && (r.Ok? <==> AllContribute(env, os))
              && (r.Ok? ==> forall n :: n in r.value <==> Contributed(env, os, n))
  {
    if pid in c.decls.noSensitivity then Ok([])
    else
      var os := Occurrences(find, OrderedMaps.Lookup(c.stmts.sensitive, pid));
      Gather(env, os, [])
  }

  /** The list depends only on which references there are: neither their
      order nor repetitions change it. */
  lemma GatherOrderFree(env: Env, os1: seq<Occurrence>, os2: seq<Occurrence>)
    requires forall o :: o in os1 <==> o in os2
    requires Gather(env, os1, []).Ok? && Gather(env, os2, []).Ok?
    ensures Gather(env, os1, []) == Gather(env, os2, [])
  {
    var r1, r2 := Gather(env, os1, []).value, Gather(env, os2, []).value;
    forall n ensures n in r1 <==> n in r2 {
      if Contributed(env, os1, n) {
        var i :| 0 <= i < |os1| && Contribution(env, os1[i]) == Ok(Some(n));
        assert os1[i] in os2;
        var j :| 0 <= j < |os2| && os2[j] == os1[i];
      }
      if Contributed(env, os2, n) {
        var j :| 0 <= j < |os2| && Contribution(env, os2[j]) == Ok(Some(n));
        assert os2[j] in os1;
        var i :| 0 <= i < |os1| && os1[i] == os2[j];
      }
    }
    SortedSets.StringOrder();
    SortedSets.SortedUnique(SortedSets.Less, r1, r2);
  }

  /** A name in the list is the signal its plain variable reference reads:
      expression lowering turns such a reference into exactly that signal
      name. */
  lemma SensitiveNameIsSignal(env: Env, ref: Hdl.Ref)
    requires |ref.name| > 0 && |ref.bits| == 0 && |ref.arrayIdx| == 0 && !ref.frozen
    ensures RefName(env, Hdl.VarRef(ref)).Ok?
    ensures Expressions.Lower(env, Hdl.VarRef(ref)) == Ok(SignalName(RefName(env, Hdl.VarRef(ref)).value))
  {
    Expressions.VarRefName(env, ref);
  }

  // ----- combinational processes -----

  /** A combinational process: with an empty sensitivity list and no wait
      statement anywhere in its body, one `wait;` is appended, so that the
      process suspends. */
  function UnclockedProcess(sensitivity: seq<string>, body: seq<SeqStmt>): (r: Concurrent)
    ensures r.Process? && r.sensitivity == sensitivity
    ensures |sensitivity| > 0 || AnyWait(body) ==> r.body == body
    ensures |sensitivity| == 0 && !AnyWait(body) ==> r.body == body + [Wait(None, None)]
    ensures |r.sensitivity| > 0 || AnyWait(r.body)
  {
    if |sensitivity| == 0 && !AnyWait(body) then
      var body' := body + [Wait(None, None)];
      assert HasWait(body'[|body|]);
      Process(sensitivity, body')
    else Process(sensitivity, body)
  }

  // ----- clocked processes -----

  /** std_logic_1164's edge functions; the parameter name is not visible in
      the translator and is `s` here. */
  const RisingEdge: FunctionDecl := FunctionDecl("rising_edge", Boolean, [Param("s", StdLogic)])
  const FallingEdge: FunctionDecl := FunctionDecl("falling_edge", Boolean, [Param("s", StdLogic)])

  /** The cast of a lowered clock or reset expression to a signal. */
  function SignalOf(v: VExpr): (r: Result<string>)
    ensures r.Ok? <==> v.SignalName?
    ensures r.Ok? ==> v == SignalName(r.value)
  {
    if v.SignalName? then Ok(v.sig) else Err(ClassCast)
  }

  /** The clock and reset signal of a configuration. */
  datatype Clocking = Clocking(clk: string, rst: string)

  function ClockSignals(env: Env, key: Hdl.RegisterConfig): (r: Result<Clocking>)
    ensures r.Ok? ==> Expressions.Lower(env, key.clk) == Ok(SignalName(r.value.clk))
    ensures r.Ok? ==> Expressions.Lower(env, key.rst) == Ok(SignalName(r.value.rst))
    ensures (Expressions.Lower(env, key.clk).Ok? && Expressions.Lower(env, key.clk).value.SignalName?
             && Expressions.Lower(env, key.rst).Ok? && Expressions.Lower(env, key.rst).value.SignalName?) ==> r.Ok?
  {
    var c :- Expressions.Lower(env, key.clk);
    var clk :- SignalOf(c);
    var x :- Expressions.Lower(env, key.rst);
    var rst :- SignalOf(x);
    Ok(Clocking(clk, rst))
  }

  /** `rst = '1'` for an active-high reset, `rst = '0'` otherwise. */
  function ResetCondition(rst: string, t: Hdl.ResetActive): VExpr {
    Binary(Equals, SignalName(rst), CharLit(if t == Hdl.HIGH then '1' else '0'))
  }

  /** `rising_edge(clk)` for a rising clock, `falling_edge(clk)` otherwise. */
  function EdgeCondition(clk: string, t: Hdl.ClockType): VExpr {
    FunctionCall(Some(if t == Hdl.RISING then RisingEdge else FallingEdge), [SignalName(clk)])
  }

  /** createIfStatement and its process: the configuration is normalised
      again, the reset branch holds the reset statements of that key (none
      when there are none), and the process is sensitive to the clock and,
      for an asynchronous reset, to the reset after it. */
  function ClockedProcess(env: Env, config: Hdl.RegisterConfig, value: seq<SeqStmt>,
                          resets: OrderedMaps.Buckets<Hdl.RegisterConfig, SeqStmt>): (r: Result<Concurrent>)
    ensures r.Ok? <==> ClockSignals(env, env.normalize(config)).Ok?
    ensures r.Ok? ==>
              var key := env.normalize(config);
              var s := ClockSignals(env, key).value;
              && r.value.Process? && |r.value.body| == 1 && r.value.body[0].If?
              && r.value.sensitivity == (if key.syncType == Hdl.ASYNC then [s.clk, s.rst] else [s.clk])
  {
    var key := env.normalize(config);
    var s :- ClockSignals(env, key);
    var rc := ResetCondition(s.rst, key.resetType);
    var edge := EdgeCondition(s.clk, key.clockType);
    var onReset := OrderedMaps.Lookup(resets, key);
    if key.syncType == Hdl.ASYNC then
      Ok(Process([s.clk, s.rst], [If(rc, onReset, [Elsif(edge, value)], [])]))
    else
      Ok(Process([s.clk], [If(edge, [If(rc, onReset, [], value)], [], [])]))
  }

  /** The index of the first elsif part whose condition holds. */
  function FirstTrue(es: seq<Elsif>, holds: VExpr -> bool): (r: Option<nat>)
    ensures r.Some? ==> r.value < |es| && holds(es[r.value].cond)
    ensures r.Some? ==> forall i :: 0 <= i < r.value ==> !holds(es[i].cond)
    ensures r.None? ==> forall i :: 0 <= i < |es| ==> !holds(es[i].cond)
  {
    if |es| == 0 then None
    else if holds(es[0].cond) then Some(0)
    else match FirstTrue(es[1..], holds)
      case None => None
      case Some(k) => Some(k + 1)
  }

  /** The statements a sequence runs once it is entered, given which
      conditions hold: an if statement runs the branch of its first true
      condition, or its else part; any other statement runs as it is. */
  function Taken(ss: seq<SeqStmt>, holds: VExpr -> bool): seq<SeqStmt>
    decreases ss, 0
  {
    if |ss| == 0 then [] else TakenOne(ss[0], holds) + Taken(ss[1..], holds)
  }

  function TakenOne(s: SeqStmt, holds: VExpr -> bool): seq<SeqStmt>
    decreases s, 1
  {
    match s
    case If(c, t, elsifs, e) =>
      if holds(c) then Taken(t, holds)
      else (match FirstTrue(elsifs, holds)
            case Some(i) => Taken(elsifs[i].stmts, holds)
            case None => Taken(e, holds))
    case _ => [s]
  }

  /** What a clocked process runs.  Synchronous reset: nothing without a
      clock edge; on an edge the reset statements while the reset is
      active and the clocked statements otherwise.  Asynchronous reset: the
      reset statements whenever the reset is active, whatever the clock;
      otherwise the clocked statements on an edge and nothing without one. */
  lemma ClockedBehaviour(env: Env, config: Hdl.RegisterConfig, value: seq<SeqStmt>,
                         resets: OrderedMaps.Buckets<Hdl.RegisterConfig, SeqStmt>, holds: VExpr -> bool)
    requires ClockSignals(env, env.normalize(config)).Ok?
    ensures var key := env.normalize(config);
            var s := ClockSignals(env, key).value;
            var body := ClockedProcess(env, config, value, resets).value.body;
            var reset := holds(ResetCondition(s.rst, key.resetType));
            var edge := holds(EdgeCondition(s.clk, key.clockType));
            var onReset := Taken(OrderedMaps.Lookup(resets, key), holds);
            var onClock := Taken(value, holds);
            && (key.syncType == Hdl.SYNC ==>
                  Taken(body, holds) == if edge then (if reset then onReset else onClock) else [])
            && (key.syncType == Hdl.ASYNC ==>
                  Taken(body, holds) == if reset then onReset else if edge then onClock else [])
  {
    var key := env.normalize(config);
    var body := ClockedProcess(env, config, value, resets).value.body;
    assert body[1..] == [];
    assert Taken(body, holds) == TakenOne(body[0], holds);
    if key.syncType == Hdl.SYNC {
      var inner := body[0].thenStmts;
      assert inner[1..] == [];
      assert Taken(inner, holds) == TakenOne(inner[0], holds);
      assert FirstTrue(body[0].elsifs, holds).None?;
      assert Taken(body[0].elseStmts, holds) == [];
      assert FirstTrue(inner[0].elsifs, holds).None?;
    }
  }

  // ----- all processes of a unit -----

  /** One combinational process per key, in key order. */
  function UnclockedProcesses(env: Env, find: Finder, c: Ctx, pids: seq<int>): (r: Result<seq<Concurrent>>)
    ensures r.Ok? <==> forall i :: 0 <= i < |pids| ==> SensitivityList(env, find, c, pids[i]).Ok?
    ensures r.Ok? ==> |r.value| == |pids| && AllSuspend(r.value)
    ensures r.Ok? ==> forall i :: 0 <= i < |pids| ==>
              r.value[i] == UnclockedProcess(SensitivityList(env, find, c, pids[i]).value,
                                             OrderedMaps.Lookup(c.stmts.unclocked, pids[i]))
  {
    if |pids| == 0 then Ok([])
    else
      var sens :- SensitivityList(env, find, c, pids[0]);
      var rest :- UnclockedProcesses(env, find, c, pids[1..]);
      assert forall i :: 1 <= i < |pids| ==> pids[1..][i - 1] == pids[i];
      var p := UnclockedProcess(sens, OrderedMaps.Lookup(c.stmts.unclocked, pids[0]));
      SuspendConcat([p], rest);
      Ok([p] + rest)
  }

  /** One clocked process per key, in key order. */
  function ClockedProcesses(env: Env, c: Ctx, keys: seq<Hdl.RegisterConfig>): (r: Result<seq<Concurrent>>)
    ensures r.Ok? <==> forall i :: 0 <= i < |keys| ==> ClockSignals(env, env.normalize(keys[i])).Ok?
    ensures r.Ok? ==> |r.value| == |keys| && AllSuspend(r.value)
    ensures r.Ok? ==> forall i :: 0 <= i < |keys| ==>
              r.value[i] == ClockedProcess(env, keys[i], OrderedMaps.Lookup(c.stmts.clocked, keys[i]), c.stmts.resets).value
  {
    if |keys| == 0 then Ok([])
    else
      var p :- ClockedProcess(env, keys[0], OrderedMaps.Lookup(c.stmts.clocked, keys[0]), c.stmts.resets);
      var rest :- ClockedProcesses(env, c, keys[1..]);
      assert forall i :: 1 <= i < |keys| ==> keys[1..][i - 1] == keys[i];
      assert CanSuspend(p);
      SuspendConcat([p], rest);
      Ok([p] + rest)
  }

  /** The processes of the architecture: the combinational ones in the
      order their process ids were first used, then the clocked ones in
      the order their configurations were first used.  Every process can
      suspend: it has a sensitivity list or a wait statement. */
  function Processes(env: Env, find: Finder, c: Ctx): (r: Result<seq<Concurrent>>)
    ensures r.Ok? ==> |r.value| == |c.stmts.unclocked.keys| + |c.stmts.clocked.keys|
    ensures r.Ok? <==> UnclockedProcesses(env, find, c, c.stmts.unclocked.keys).Ok?
                       && ClockedProcesses(env, c, c.stmts.clocked.keys).Ok?
    ensures r.Ok? ==> r.value == UnclockedProcesses(env, find, c, c.stmts.unclocked.keys).value
                                 + ClockedProcesses(env, c, c.stmts.clocked.keys).value
    ensures r.Ok? ==> AllSuspend(r.value)
  {
    var u :- UnclockedProcesses(env, find, c, c.stmts.unclocked.keys);
    var k :- ClockedProcesses(env, c, c.stmts.clocked.keys);
    SuspendConcat(u, k);
    Ok(u + k)
  }

  /** A process can suspend: it has a sensitivity list or a wait statement. */
  predicate CanSuspend(p: Concurrent) {
    p.Process? && (|p.sensitivity| > 0 || AnyWait(p.body))
  }

  predicate AllSuspend(ps: seq<Concurrent>) {
    forall i :: 0 <= i < |ps| ==> CanSuspend(ps[i])
  }

  lemma SuspendConcat(u: seq<Concurrent>, k: seq<Concurrent>)
    requires AllSuspend(u) && AllSuspend(k)
    ensures AllSuspend(u + k)
  {
    forall i | 0 <= i < |u + k| ensures CanSuspend((u + k)[i]) {
      if i >= |u| {
        assert (u + k)[i] == k[i - |u|];
      }
    }
  }
}
