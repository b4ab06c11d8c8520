/** How the compound statements rebuild themselves per bucket
    (VHDLStatementExtension for if, switch and for): the branches are lowered
    first, then one output statement is made for every clock configuration
    the branches produced, and one more for the current process when a
    branch produced combinational statements.  Only the declarations of the
    branches are carried over; their reset and concurrent statements are
    not. */
module Partition {
  import opened Wrappers
  import Hdl
  import opened Vhdl
  import opened VhdlContext
  import OrderedMaps
  import Literals
  import Expressions
  import opened Env

  /** Every configuration in the list is its own normal form, as the keys of
      a context built by addClockedStatement are when normalisation is
      idempotent. */
  ghost predicate Normalized(normalize: Hdl.RegisterConfig -> Hdl.RegisterConfig, ks: seq<Hdl.RegisterConfig>) {
    forall i :: 0 <= i < |ks| ==> normalize(ks[i]) == ks[i]
  }

  /** One statement per configuration, added in order with
      addClockedStatement. */
  function AddEach(c: Ctx, normalize: Hdl.RegisterConfig -> Hdl.RegisterConfig,
                   ks: seq<Hdl.RegisterConfig>, mk: Hdl.RegisterConfig -> SeqStmt): (r: Ctx)
    requires Valid(c)
    ensures Valid(r)
    ensures r.decls == c.decls
    ensures r.stmts.(clocked := c.stmts.clocked) == c.stmts
  {
    c.(stmts := c.stmts.(clocked := AppendEach(c.stmts.clocked, normalize, ks, mk)))
  }

  /** The bucket map after addClockedStatement for each configuration. */
  function AppendEach(b: OrderedMaps.Buckets<Hdl.RegisterConfig, SeqStmt>, normalize: Hdl.RegisterConfig -> Hdl.RegisterConfig,
                      ks: seq<Hdl.RegisterConfig>, mk: Hdl.RegisterConfig -> SeqStmt): (r: OrderedMaps.Buckets<Hdl.RegisterConfig, SeqStmt>)
    requires OrderedMaps.Valid(b)
    ensures OrderedMaps.Valid(r)
    decreases |ks|
  {
    if |ks| == 0 then b
    else AppendEach(OrderedMaps.Append(b, normalize(ks[0]), mk(ks[0])), normalize, ks[1..], mk)
  }

  /** With distinct, normalised, new configurations each gets a bucket of
      its own holding exactly its statement, after the existing keys and in
      the order given. */
  lemma AddEachBuckets(c: Ctx, normalize: Hdl.RegisterConfig -> Hdl.RegisterConfig,
                       ks: seq<Hdl.RegisterConfig>, mk: Hdl.RegisterConfig -> SeqStmt)
    requires Valid(c) && OrderedMaps.Distinct(ks) && Normalized(normalize, ks)
    requires forall i :: 0 <= i < |ks| ==> ks[i] !in c.stmts.clocked.entries
    ensures AddEach(c, normalize, ks, mk).stmts.clocked.keys == c.stmts.clocked.keys + ks
    ensures forall k :: OrderedMaps.Lookup(AddEach(c, normalize, ks, mk).stmts.clocked, k)
                          == OrderedMaps.Lookup(c.stmts.clocked, k) + (if k in ks then [mk(k)] else [])
  {
    AppendEachBuckets(c.stmts.clocked, normalize, ks, mk);
  }

  lemma {:induction false} AppendEachBuckets(b: OrderedMaps.Buckets<Hdl.RegisterConfig, SeqStmt>,
                                             normalize: Hdl.RegisterConfig -> Hdl.RegisterConfig,
                                             ks: seq<Hdl.RegisterConfig>, mk: Hdl.RegisterConfig -> SeqStmt)
    requires OrderedMaps.Valid(b) && OrderedMaps.Distinct(ks) && Normalized(normalize, ks)
    requires forall i :: 0 <= i < |ks| ==> ks[i] !in b.entries
    ensures AppendEach(b, normalize, ks, mk).keys == b.keys + ks
    ensures forall k :: OrderedMaps.Lookup(AppendEach(b, normalize, ks, mk), k)
                          == OrderedMaps.Lookup(b, k) + (if k in ks then [mk(k)] else [])
    decreases |ks|
  {
    if |ks| > 0 {
      var k0 := ks[0];
      var rest := ks[1..];
      AppendEachFirst(b, normalize, ks, mk);
      var b' := OrderedMaps.Append(b, k0, mk(k0));
      AppendEachBuckets(b', normalize, rest, mk);
      SnocCons(b.keys, ks);
      BucketsCombine(b, b', AppendEach(b', normalize, rest, mk), ks, mk);
    }
  }

  /** The first step of AppendEach on a new, normalised configuration, and
      what the remaining configurations still satisfy. */
  lemma AppendEachFirst(b: OrderedMaps.Buckets<Hdl.RegisterConfig, SeqStmt>,
                        normalize: Hdl.RegisterConfig -> Hdl.RegisterConfig,
                        ks: seq<Hdl.RegisterConfig>, mk: Hdl.RegisterConfig -> SeqStmt)
    requires OrderedMaps.Valid(b) && |ks| > 0 && OrderedMaps.Distinct(ks) && Normalized(normalize, ks)
    requires forall i :: 0 <= i < |ks| ==> ks[i] !in b.entries
    ensures var b' := OrderedMaps.Append(b, ks[0], mk(ks[0]));
            && b'.keys == b.keys + [ks[0]]
            && AppendEach(b, normalize, ks, mk) == AppendEach(b', normalize, ks[1..], mk)
            && OrderedMaps.Distinct(ks[1..]) && Normalized(normalize, ks[1..]) && ks[0] !in ks[1..]
            && forall i :: 0 <= i < |ks[1..]| ==> ks[1..][i] !in b'.entries
  {
    var k0 := ks[0];
    var rest := ks[1..];
    var b' := OrderedMaps.Append(b, k0, mk(k0));
    assert normalize(k0) == k0;
    assert OrderedMaps.Fresh([k0], b.entries.Keys) == [k0];
    forall i | 0 <= i < |rest| ensures normalize(rest[i]) == rest[i] && rest[i] !in b'.entries {
      assert rest[i] == ks[i + 1];
    }
  }

  /** The buckets after the first configuration and after the rest add up
      to the buckets after all of them. */
  lemma BucketsCombine(b: OrderedMaps.Buckets<Hdl.RegisterConfig, SeqStmt>, b': OrderedMaps.Buckets<Hdl.RegisterConfig, SeqStmt>,
                       r: OrderedMaps.Buckets<Hdl.RegisterConfig, SeqStmt>, ks: seq<Hdl.RegisterConfig>, mk: Hdl.RegisterConfig -> SeqStmt)
    requires |ks| > 0 && ks[0] !in ks[1..]
    requires OrderedMaps.Lookup(b', ks[0]) == OrderedMaps.Lookup(b, ks[0]) + [mk(ks[0])]
    requires forall k :: k != ks[0] ==> OrderedMaps.Lookup(b', k) == OrderedMaps.Lookup(b, k)
    requires forall k :: OrderedMaps.Lookup(r, k) == OrderedMaps.Lookup(b', k) + (if k in ks[1..] then [mk(k)] else [])
    ensures forall k :: OrderedMaps.Lookup(r, k) == OrderedMaps.Lookup(b, k) + (if k in ks then [mk(k)] else [])
  {
    forall k ensures OrderedMaps.Lookup(r, k) == OrderedMaps.Lookup(b, k) + (if k in ks then [mk(k)] else []) {
      assert k in ks <==> k == ks[0] || k in ks[1..] by {
        assert ks == [ks[0]] + ks[1..];
      }
    }
  }

  lemma SnocCons<K>(a: seq<K>, ks: seq<K>)
    requires |ks| > 0
    ensures a + ks == (a + [ks[0]]) + ks[1..]
  {
    assert ks == [ks[0]] + ks[1..];
  }

  // ----- if -----

  /** The configurations of two branches: the then-branch's first, then the
      else-branch's new ones (a LinkedHashSet filled in that order). */
  function UnionKeys(a: seq<Hdl.RegisterConfig>, b: seq<Hdl.RegisterConfig>): (r: seq<Hdl.RegisterConfig>)
    ensures forall k :: k in r <==> k in a || k in b
  {
    a + OrderedMaps.Fresh(b, set k | k in a)
  }

  lemma UnionKeysDistinct(a: seq<Hdl.RegisterConfig>, b: seq<Hdl.RegisterConfig>,
                          normalize: Hdl.RegisterConfig -> Hdl.RegisterConfig)
    requires OrderedMaps.Distinct(a) && OrderedMaps.Distinct(b)
    requires Normalized(normalize, a) && Normalized(normalize, b)
    ensures OrderedMaps.Distinct(UnionKeys(a, b)) && Normalized(normalize, UnionKeys(a, b))
  {
    var f := OrderedMaps.Fresh(b, set k | k in a);
    OrderedMaps.FreshDistinct(b, set k | k in a);
    OrderedMaps.DistinctConcat(a, f);
    var u := UnionKeys(a, b);
    forall i | 0 <= i < |u| ensures normalize(u[i]) == u[i] {
      if i < |a| {
        assert u[i] == a[i];
      } else {
        assert u[i] == f[i - |a|];
        assert u[i] in f;
        var j :| 0 <= j < |b| && b[j] == u[i];
      }
    }
  }

  /** The then- and else-statements of one configuration or process: a
      branch's part is filled only when that branch produced statements for
      it. */
  function IfOf(cond: VExpr, thenStmts: seq<SeqStmt>, elseStmts: seq<SeqStmt>): (r: SeqStmt)
    ensures r.If? && r.cond == cond && r.elsifs == []
    ensures r.thenStmts == thenStmts && r.elseStmts == elseStmts
  {
    If(cond, thenStmts, [], elseStmts)
  }

  /** _toVHDL(HDLIfStatement) once both branches are lowered and merged: one
      if per configuration of either branch, one combinational if when
      either branch has combinational statements, and the declarations of
      both branches. */
  function AssembleIf(env: Env, ifExp: Hdl.Expr, pid: int, source: Hdl.Stmt, tc: Ctx, ec: Ctx): (r: Result<Ctx>)
    requires Valid(tc) && Valid(ec)
    ensures r.Ok? <==> Expressions.Lower(env, ifExp).Ok?
    ensures r.Ok? ==> Valid(r.value)
    ensures r.Ok? ==> r.value.decls == Merge(Merge(Empty(), tc, true), ec, true).decls
    ensures r.Ok? ==> r.value.stmts.resets == Empty().stmts.resets && r.value.stmts.concurrent == []
    ensures r.Ok? ==> r.value.stmts.clocked == IfClocked(env.normalize, Expressions.Lower(env, ifExp).value, tc, ec).stmts.clocked
    ensures r.Ok? && |tc.stmts.unclocked.keys| == 0 && |ec.stmts.unclocked.keys| == 0 ==>
              r.value.stmts.unclocked.keys == [] && r.value.stmts.sensitive.keys == []
    ensures r.Ok? && (|tc.stmts.unclocked.keys| != 0 || |ec.stmts.unclocked.keys| != 0) ==>
              && r.value.stmts.unclocked.keys == [pid]
              && OrderedMaps.Lookup(r.value.stmts.unclocked, pid)
                   == [IfOf(Expressions.Lower(env, ifExp).value,
                            OrderedMaps.Lookup(tc.stmts.unclocked, pid), OrderedMaps.Lookup(ec.stmts.unclocked, pid))]
              && OrderedMaps.Lookup(r.value.stmts.sensitive, pid) == [source]
  {
    var cond :- Expressions.Lower(env, ifExp);
    var clocked := IfClocked(env.normalize, cond, tc, ec);
    if |tc.stmts.unclocked.keys| != 0 || |ec.stmts.unclocked.keys| != 0 then
      var s := IfOf(cond, OrderedMaps.Lookup(tc.stmts.unclocked, pid), OrderedMaps.Lookup(ec.stmts.unclocked, pid));
      assert OrderedMaps.Fresh([pid], clocked.stmts.unclocked.entries.Keys) == [pid];
      Ok(AddUnclocked(clocked, pid, s, source))
    else Ok(clocked)
  }

  /** The declarations of both branches and one if per configuration of
      either branch, before the combinational part is added. */
  function IfClocked(normalize: Hdl.RegisterConfig -> Hdl.RegisterConfig, cond: VExpr, tc: Ctx, ec: Ctx): (r: Ctx)
    requires Valid(tc) && Valid(ec)
    ensures Valid(r)
    ensures r.decls == Merge(Merge(Empty(), tc, true), ec, true).decls
    ensures r.stmts.(clocked := Empty().stmts.clocked) == Empty().stmts
  {
    var res := Merge(Merge(Empty(), tc, true), ec, true);
    assert res.stmts == Empty().stmts;
    AddEach(res, normalize, UnionKeys(tc.stmts.clocked.keys, ec.stmts.clocked.keys), IfCases(cond, tc, ec))
  }

  /** The if made for the bucket of each configuration. */
  function IfCases(cond: VExpr, tc: Ctx, ec: Ctx): (r: Hdl.RegisterConfig -> SeqStmt)
    ensures forall k :: r(k) == IfOf(cond, OrderedMaps.Lookup(tc.stmts.clocked, k), OrderedMaps.Lookup(ec.stmts.clocked, k))
  {
    k => IfOf(cond, OrderedMaps.Lookup(tc.stmts.clocked, k), OrderedMaps.Lookup(ec.stmts.clocked, k))
  }

  /** The buckets of IfClocked: the union of the branches' configurations,
      then-keys first, each holding one if over that configuration's
      statements of both branches. */
  lemma IfClockedBuckets(normalize: Hdl.RegisterConfig -> Hdl.RegisterConfig, cond: VExpr, tc: Ctx, ec: Ctx)
    requires Valid(tc) && Valid(ec)
    requires Normalized(normalize, tc.stmts.clocked.keys) && Normalized(normalize, ec.stmts.clocked.keys)
    ensures var r := IfClocked(normalize, cond, tc, ec);
            && r.stmts.clocked.keys == UnionKeys(tc.stmts.clocked.keys, ec.stmts.clocked.keys)
            && forall k :: OrderedMaps.Lookup(r.stmts.clocked, k)
                             == if k in tc.stmts.clocked.keys || k in ec.stmts.clocked.keys
                                then [IfOf(cond, OrderedMaps.Lookup(tc.stmts.clocked, k), OrderedMaps.Lookup(ec.stmts.clocked, k))]
                                else []
  {
    var res := Merge(Merge(Empty(), tc, true), ec, true);
    var ks := UnionKeys(tc.stmts.clocked.keys, ec.stmts.clocked.keys);
    var mk := IfCases(cond, tc, ec);
    UnionKeysDistinct(tc.stmts.clocked.keys, ec.stmts.clocked.keys, normalize);
    assert res.stmts == Empty().stmts;
    assert res.stmts.clocked.entries == map[];
    AddEachBuckets(res, normalize, ks, mk);
    var r := AddEach(res, normalize, ks, mk);
    assert IfClocked(normalize, cond, tc, ec) == r;
    forall k ensures OrderedMaps.Lookup(r.stmts.clocked, k)
                       == if k in tc.stmts.clocked.keys || k in ec.stmts.clocked.keys then [mk(k)] else []
    {
      assert OrderedMaps.Lookup(res.stmts.clocked, k) == [];
    }
  }

  /** With normalised keys, an if produces exactly one output if per
      configuration of the union of the branches' configurations, then-keys
      first; each holds the then-branch's statements of that configuration
      and the else-branch's. */
  lemma {:induction false} IfPartition(env: Env, ifExp: Hdl.Expr, pid: int, source: Hdl.Stmt, tc: Ctx, ec: Ctx)
    requires Valid(tc) && Valid(ec)
    requires Normalized(env.normalize, tc.stmts.clocked.keys) && Normalized(env.normalize, ec.stmts.clocked.keys)
    requires AssembleIf(env, ifExp, pid, source, tc, ec).Ok?
    ensures var r := AssembleIf(env, ifExp, pid, source, tc, ec).value;
            var cond := Expressions.Lower(env, ifExp).value;
            && r.stmts.clocked.keys == UnionKeys(tc.stmts.clocked.keys, ec.stmts.clocked.keys)
            && forall k :: OrderedMaps.Lookup(r.stmts.clocked, k)
                             == if k in tc.stmts.clocked.keys || k in ec.stmts.clocked.keys
                                then [IfOf(cond, OrderedMaps.Lookup(tc.stmts.clocked, k), OrderedMaps.Lookup(ec.stmts.clocked, k))]
                                else []
  {
    IfClockedBuckets(env.normalize, Expressions.Lower(env, ifExp).value, tc, ec);
  }

  // ----- switch -----

  /** createAlternative: a case without a label is `others`; a label with a
      constant value is a binary literal of the switch width, which must be
      known; any other label is lowered as an expression. */
  function CaseChoice(env: Env, caseLabel: Option<Hdl.Expr>, width: Option<int>): (r: Result<Choice>)
    ensures caseLabel.None? ==> r == Ok(Others)
    ensures caseLabel.Some? && env.valueOf(caseLabel.value).Some? && width.None? ==> r == Err(WidthUnknown)
    ensures caseLabel.Some? && env.valueOf(caseLabel.value).Some? && width.Some? ==>
              r == Ok(ChoiceExpr(BinaryLit(Literals.IntValue(width.value), env.valueOf(caseLabel.value).value)))
    ensures caseLabel.Some? && env.valueOf(caseLabel.value).None? ==>
              (r.Ok? <==> Expressions.Lower(env, caseLabel.value).Ok?)
              && (r.Ok? ==> r.value == ChoiceExpr(Expressions.Lower(env, caseLabel.value).value))
  {
    match caseLabel
    case None => Ok(Others)
    case Some(l) =>
      match env.valueOf(l)
      case Some(v) =>
        if width.None? then Err(WidthUnknown)
        else Ok(ChoiceExpr(BinaryLit(Literals.IntValue(width.value), v)))
      case None =>
        var e :- Expressions.Lower(env, l);
        Ok(ChoiceExpr(e))
  }

  /** The choices of the cases from `from` on, in order; the first case
      whose choice fails decides the fault. */
  function Choices(env: Env, labels: seq<Option<Hdl.Expr>>, width: Option<int>, from: nat): (r: Result<seq<Choice>>)
    requires from <= |labels|
    ensures r.Ok? ==> |r.value| == |labels| - from
    ensures r.Ok? ==> forall j :: 0 <= j < |r.value| ==> CaseChoice(env, labels[from + j], width) == Ok(r.value[j])
    ensures r.Err? ==> exists j :: from <= j < |labels| && CaseChoice(env, labels[j], width) == Err(r.fault)
    decreases |labels| - from
  {
    if from == |labels| then Ok([])
    else
      var c :- CaseChoice(env, labels[from], width);
      var rest :- Choices(env, labels, width, from + 1);
      Ok([c] + rest)
  }

  /** One case of a switch: its choice and the fragment its statements
      lowered to (an entry of the LinkedHashMap of case contexts). */
  datatype Arm = Arm(choice: Choice, frag: Ctx)

  /** One alternative per arm, in case order, holding the statements `pick`
      selects from the arm's fragment. */
  function Alternatives(arms: seq<Arm>, pick: Ctx -> seq<SeqStmt>): (r: seq<Alternative>)
    ensures |r| == |arms|
    ensures forall i :: 0 <= i < |arms| ==> r[i] == Alternative(arms[i].choice, pick(arms[i].frag))
  {
    seq(|arms|, i requires 0 <= i < |arms| => Alternative(arms[i].choice, pick(arms[i].frag)))
  }

  /** The arms of a switch: the i-th case's choice paired with its fragment. */
  function ArmsOf(choices: seq<Choice>, frags: seq<Ctx>): (r: seq<Arm>)
    requires |choices| == |frags|
    ensures |r| == |frags|
    ensures forall i :: 0 <= i < |frags| ==> r[i] == Arm(choices[i], frags[i])
  {
    seq(|frags|, i requires 0 <= i < |frags| => Arm(choices[i], frags[i]))
  }

  /** The case statement made for the bucket of configuration `k`. */
  function ClockedCase(caseExp: VExpr, arms: seq<Arm>, k: Hdl.RegisterConfig): (r: SeqStmt)
    ensures r.Case? && r.caseExp == caseExp && |r.alternatives| == |arms|
    ensures forall i :: 0 <= i < |arms| ==>
              r.alternatives[i] == Alternative(arms[i].choice, OrderedMaps.Lookup(arms[i].frag.stmts.clocked, k))
  {
    Case(caseExp, Alternatives(arms, (f: Ctx) => OrderedMaps.Lookup(f.stmts.clocked, k)))
  }

  /** ClockedCase for every configuration. */
  function ClockedCases(caseExp: VExpr, arms: seq<Arm>): (r: Hdl.RegisterConfig -> SeqStmt)
    ensures forall k :: r(k) == ClockedCase(caseExp, arms, k)
  {
    k => ClockedCase(caseExp, arms, k)
  }

  /** The combinational case statement made for process `pid`. */
  function UnclockedCase(caseExp: VExpr, arms: seq<Arm>, pid: int): (r: SeqStmt)
    ensures r.Case? && r.caseExp == caseExp && |r.alternatives| == |arms|
    ensures forall i :: 0 <= i < |arms| ==>
              r.alternatives[i] == Alternative(arms[i].choice, OrderedMaps.Lookup(arms[i].frag.stmts.unclocked, pid))
  {
    Case(caseExp, Alternatives(arms, (f: Ctx) => OrderedMaps.Lookup(f.stmts.unclocked, pid)))
  }

  /** The configurations of all case fragments, in order of first
      appearance. */
  function CaseKeys(frags: seq<Ctx>): (r: seq<Hdl.RegisterConfig>)
    ensures forall k :: k in r <==> exists i :: 0 <= i < |frags| && k in frags[i].stmts.clocked.keys
    decreases |frags|
  {
    if |frags| == 0 then []
    else
      assert forall i :: 0 <= i < |frags| - 1 ==> frags[..|frags| - 1][i] == frags[i];
      UnionKeys(CaseKeys(frags[..|frags| - 1]), frags[|frags| - 1].stmts.clocked.keys)
  }

  lemma {:induction false} CaseKeysDistinct(frags: seq<Ctx>, normalize: Hdl.RegisterConfig -> Hdl.RegisterConfig)
    requires forall i :: 0 <= i < |frags| ==> Valid(frags[i]) && Normalized(normalize, frags[i].stmts.clocked.keys)
    ensures OrderedMaps.Distinct(CaseKeys(frags)) && Normalized(normalize, CaseKeys(frags))
    decreases |frags|
  {
    if |frags| > 0 {
      var init := frags[..|frags| - 1];
      assert forall i :: 0 <= i < |init| ==> init[i] == frags[i];
      CaseKeysDistinct(init, normalize);
      var last := frags[|frags| - 1];
      UnionKeysDistinct(CaseKeys(init), last.stmts.clocked.keys, normalize);
    }
  }

  /** Some case produced combinational statements (of any process). */
  predicate AnyUnclocked(frags: seq<Ctx>) {
    exists i :: 0 <= i < |frags| && |frags[i].stmts.unclocked.keys| > 0
  }

  /** _toVHDL(HDLSwitchStatement) once the cases are lowered: one case
      statement per configuration of any case and one combinational case
      statement when a case has combinational statements, each with an
      alternative for every case.  The result starts from a fresh context
      and the declarations of the cases are not merged into it. */
  function AssembleSwitch(env: Env, pid: int, source: Hdl.Stmt, width: Option<int>, caseExp: VExpr,
                          labels: seq<Option<Hdl.Expr>>, frags: seq<Ctx>): (r: Result<Ctx>)
    requires |labels| == |frags|
    ensures r.Ok? ==> Valid(r.value)
    ensures r.Ok? ==> r.value.decls == Empty().decls
    ensures r.Ok? ==> r.value.stmts.resets == Empty().stmts.resets && r.value.stmts.concurrent == []
    ensures |CaseKeys(frags)| == 0 && !AnyUnclocked(frags) ==> r == Ok(Empty())
    ensures (|CaseKeys(frags)| != 0 || AnyUnclocked(frags)) ==> (r.Ok? <==> Choices(env, labels, width, 0).Ok?)
    ensures r.Ok? && (|CaseKeys(frags)| != 0 || AnyUnclocked(frags)) ==>
              r.value.stmts.clocked == SwitchClocked(env.normalize, caseExp, Choices(env, labels, width, 0).value, frags).stmts.clocked
    ensures r.Ok? && !AnyUnclocked(frags) ==> r.value.stmts.unclocked.keys == []
    ensures r.Ok? && AnyUnclocked(frags) ==>
              && r.value.stmts.unclocked.keys == [pid]
              && OrderedMaps.Lookup(r.value.stmts.unclocked, pid)
                   == [UnclockedCase(caseExp, ArmsOf(Choices(env, labels, width, 0).value, frags), pid)]
              && OrderedMaps.Lookup(r.value.stmts.sensitive, pid) == [source]
  {
    var configs := CaseKeys(frags);
    if |configs| == 0 && !AnyUnclocked(frags) then Ok(Empty())
    else
      var choices :- Choices(env, labels, width, 0);
      var arms := ArmsOf(choices, frags);
      var clocked := SwitchClocked(env.normalize, caseExp, choices, frags);
      if AnyUnclocked(frags) then
        assert OrderedMaps.Fresh([pid], clocked.stmts.unclocked.entries.Keys) == [pid];
        Ok(AddUnclocked(clocked, pid, UnclockedCase(caseExp, arms, pid), source))
      else Ok(clocked)
  }

  /** One case statement per configuration of any case, before the
      combinational part is added. */
  function SwitchClocked(normalize: Hdl.RegisterConfig -> Hdl.RegisterConfig, caseExp: VExpr,
                         choices: seq<Choice>, frags: seq<Ctx>): (r: Ctx)
    requires |choices| == |frags|
    ensures Valid(r) && r.decls == Empty().decls
    ensures r.stmts.(clocked := Empty().stmts.clocked) == Empty().stmts
  {
    AddEach(Empty(), normalize, CaseKeys(frags), ClockedCases(caseExp, ArmsOf(choices, frags)))
  }

  /** The buckets of SwitchClocked: the configurations of all cases in order
      of first appearance, each holding its ClockedCase. */
  lemma SwitchClockedBuckets(normalize: Hdl.RegisterConfig -> Hdl.RegisterConfig, caseExp: VExpr,
                             choices: seq<Choice>, frags: seq<Ctx>)
    requires |choices| == |frags|
    requires forall i :: 0 <= i < |frags| ==> Valid(frags[i]) && Normalized(normalize, frags[i].stmts.clocked.keys)
    ensures var r := SwitchClocked(normalize, caseExp, choices, frags);
            && r.stmts.clocked.keys == CaseKeys(frags)
            && forall k :: k in CaseKeys(frags) ==>
                 OrderedMaps.Lookup(r.stmts.clocked, k) == [ClockedCase(caseExp, ArmsOf(choices, frags), k)]
  {
    var configs := CaseKeys(frags);
    var mk := ClockedCases(caseExp, ArmsOf(choices, frags));
    CaseKeysDistinct(frags, normalize);
    var e := Empty();
    assert e.stmts.clocked.entries == map[];
    AddEachBuckets(e, normalize, configs, mk);
    forall k | k in configs
      ensures OrderedMaps.Lookup(AddEach(e, normalize, configs, mk).stmts.clocked, k) == [mk(k)]
    {
      assert OrderedMaps.Lookup(e.stmts.clocked, k) == [];
    }
  }

  /** The bucket of configuration `k` after a switch: one case statement on
      `caseExp` with an alternative for every case in source order, holding
      the choice of that case's label and that case's statements of the
      configuration (empty when it produced none). */
  predicate CaseBucket(env: Env, labels: seq<Option<Hdl.Expr>>, width: Option<int>, frags: seq<Ctx>,
                       caseExp: VExpr, k: Hdl.RegisterConfig, b: seq<SeqStmt>)
    requires |labels| == |frags|
  {
    && |b| == 1 && b[0].Case? && b[0].caseExp == caseExp
    && |b[0].alternatives| == |frags|
    && forall i :: 0 <= i < |frags| ==>
         && b[0].alternatives[i].stmts == OrderedMaps.Lookup(frags[i].stmts.clocked, k)
         && CaseChoice(env, labels[i], width) == Ok(b[0].alternatives[i].choice)
  }

  /** With normalised keys, a switch produces exactly one case statement per
      configuration of any case, in order of first appearance, as CaseBucket
      describes. */
  lemma {:induction false} SwitchPartition(env: Env, pid: int, source: Hdl.Stmt, width: Option<int>, caseExp: VExpr,
                                           labels: seq<Option<Hdl.Expr>>, frags: seq<Ctx>)
    requires |labels| == |frags|
    requires forall i :: 0 <= i < |frags| ==> Valid(frags[i]) && Normalized(env.normalize, frags[i].stmts.clocked.keys)
    requires AssembleSwitch(env, pid, source, width, caseExp, labels, frags).Ok?
    ensures var r := AssembleSwitch(env, pid, source, width, caseExp, labels, frags).value;
            && r.stmts.clocked.keys == CaseKeys(frags)
            && forall k :: k in CaseKeys(frags) ==>
                 CaseBucket(env, labels, width, frags, caseExp, k, OrderedMaps.Lookup(r.stmts.clocked, k))
  {
    var configs := CaseKeys(frags);
    if |configs| != 0 || AnyUnclocked(frags) {
      var r := AssembleSwitch(env, pid, source, width, caseExp, labels, frags).value;
      var choices := Choices(env, labels, width, 0).value;
      SwitchClockedBuckets(env.normalize, caseExp, choices, frags);
      forall k | k in configs
        ensures CaseBucket(env, labels, width, frags, caseExp, k, OrderedMaps.Lookup(r.stmts.clocked, k))
      {
        ArmAlternatives(env, labels, width, frags, choices, caseExp, k);
      }
    }
  }

  /** The case statement built for one configuration satisfies CaseBucket. */
  lemma ArmAlternatives(env: Env, labels: seq<Option<Hdl.Expr>>, width: Option<int>, frags: seq<Ctx>,
                        choices: seq<Choice>, caseExp: VExpr, k: Hdl.RegisterConfig)
    requires |labels| == |frags| && Choices(env, labels, width, 0) == Ok(choices)
    ensures CaseBucket(env, labels, width, frags, caseExp, k, [ClockedCase(caseExp, ArmsOf(choices, frags), k)])
  {
    var c := ClockedCase(caseExp, ArmsOf(choices, frags), k);
    forall i | 0 <= i < |frags|
      ensures CaseChoice(env, labels[i], width) == Ok(c.alternatives[i].choice)
    {
      assert CaseChoice(env, labels[0 + i], width) == Ok(choices[i]);
    }
  }

  // ----- for -----

  /** The loop statement wrapping one bucket. */
  function ForOf(name: string, rng: VRange, body: seq<SeqStmt>): (r: SeqStmt)
    ensures r.For? && r.loopParam == name && r.loopRange == rng && r.body == body
  {
    For(name, rng, body)
  }

  /** _toVHDL(HDLForLoop) once the body is lowered and merged: every clocked
      bucket of the body, and the body's bucket of the current process, is
      wrapped in one loop over the first range, counting up.  The range is
      needed only when there is something to wrap. */
  function AssembleFor(env: Env, param: string, ranges: seq<Hdl.Range>, pid: int, source: Hdl.Stmt, body: Ctx): (r: Result<Ctx>)
    requires Valid(body)
    ensures r.Ok? ==> Valid(r.value)
    ensures r.Ok? ==> r.value.decls == Merge(Empty(), body, true).decls
    ensures r.Ok? ==> r.value.stmts.resets == Empty().stmts.resets && r.value.stmts.concurrent == []
    ensures |body.stmts.clocked.keys| == 0 && pid !in body.stmts.unclocked.entries ==> r == Ok(Merge(Empty(), body, true))
    ensures (|body.stmts.clocked.keys| != 0 || pid in body.stmts.unclocked.entries) ==>
              (r.Ok? <==> |ranges| > 0 && Expressions.LowerRange(env, ranges[0], TO).Ok?)
    ensures r.Ok? && (|body.stmts.clocked.keys| != 0 || pid in body.stmts.unclocked.entries) ==>
              r.value.stmts.clocked == ForClocked(env.normalize, env.vhdlName(param), Expressions.LowerRange(env, ranges[0], TO).value, body).stmts.clocked
    ensures r.Ok? && pid !in body.stmts.unclocked.entries ==> r.value.stmts.unclocked.keys == []
    ensures r.Ok? && pid in body.stmts.unclocked.entries ==>
              && r.value.stmts.unclocked.keys == [pid]
              && OrderedMaps.Lookup(r.value.stmts.unclocked, pid)
                   == [ForOf(env.vhdlName(param), Expressions.LowerRange(env, ranges[0], TO).value,
                             OrderedMaps.Lookup(body.stmts.unclocked, pid))]
              && OrderedMaps.Lookup(r.value.stmts.sensitive, pid) == [source]
  {
    var res := Merge(Empty(), body, true);
    if |body.stmts.clocked.keys| == 0 && pid !in body.stmts.unclocked.entries then Ok(res)
    else if |ranges| == 0 then Err(IndexOutOfBounds)
    else
      var rng :- Expressions.LowerRange(env, ranges[0], TO);
      var name := env.vhdlName(param);
      var clocked := ForClocked(env.normalize, name, rng, body);
      if pid in body.stmts.unclocked.entries then
        assert OrderedMaps.Fresh([pid], clocked.stmts.unclocked.entries.Keys) == [pid];
        Ok(AddUnclocked(clocked, pid, ForOf(name, rng, OrderedMaps.Lookup(body.stmts.unclocked, pid)), source))
      else Ok(clocked)
  }

  /** The declarations of the body and one loop per configuration of the
      body, before the combinational part is added. */
  function ForClocked(normalize: Hdl.RegisterConfig -> Hdl.RegisterConfig, name: string, rng: VRange, body: Ctx): (r: Ctx)
    requires Valid(body)
    ensures Valid(r)
    ensures r.decls == Merge(Empty(), body, true).decls
    ensures r.stmts.(clocked := Empty().stmts.clocked) == Empty().stmts
  {
    var res := Merge(Empty(), body, true);
    assert res.stmts == Empty().stmts;
    AddEach(res, normalize, body.stmts.clocked.keys, ForCases(name, rng, body))
  }

  /** The loop made for the bucket of each configuration. */
  function ForCases(name: string, rng: VRange, body: Ctx): (r: Hdl.RegisterConfig -> SeqStmt)
    ensures forall k :: r(k) == ForOf(name, rng, OrderedMaps.Lookup(body.stmts.clocked, k))
  {
    k => ForOf(name, rng, OrderedMaps.Lookup(body.stmts.clocked, k))
  }

  /** The buckets of ForClocked: the body's configurations in order, each
      holding one loop over that configuration's statements. */
  lemma ForClockedBuckets(normalize: Hdl.RegisterConfig -> Hdl.RegisterConfig, name: string, rng: VRange, body: Ctx)
    requires Valid(body) && Normalized(normalize, body.stmts.clocked.keys)
    ensures var r := ForClocked(normalize, name, rng, body);
            && r.stmts.clocked.keys == body.stmts.clocked.keys
            && forall k :: k in body.stmts.clocked.keys ==>
                 OrderedMaps.Lookup(r.stmts.clocked, k) == [ForOf(name, rng, OrderedMaps.Lookup(body.stmts.clocked, k))]
  {
    var res := Merge(Empty(), body, true);
    var mk := ForCases(name, rng, body);
    assert res.stmts == Empty().stmts;
    assert res.stmts.clocked.entries == map[];
    AddEachBuckets(res, normalize, body.stmts.clocked.keys, mk);
    var r := AddEach(res, normalize, body.stmts.clocked.keys, mk);
    assert ForClocked(normalize, name, rng, body) == r;
    forall k | k in body.stmts.clocked.keys
      ensures OrderedMaps.Lookup(r.stmts.clocked, k) == [mk(k)]
    {
      assert OrderedMaps.Lookup(res.stmts.clocked, k) == [];
    }
  }

  /** With normalised keys, every clocked bucket of the body becomes exactly
      one loop under the same configuration, wrapping that bucket's
      statements in order; combinational statements of other processes are
      dropped. */
  lemma {:induction false} ForPartition(env: Env, param: string, ranges: seq<Hdl.Range>, pid: int, source: Hdl.Stmt, body: Ctx)
    requires Valid(body) && Normalized(env.normalize, body.stmts.clocked.keys)
    requires AssembleFor(env, param, ranges, pid, source, body).Ok?
    ensures var r := AssembleFor(env, param, ranges, pid, source, body).value;
            && r.stmts.clocked.keys == body.stmts.clocked.keys
            && (forall k :: k in body.stmts.clocked.keys ==>
                  OrderedMaps.Lookup(r.stmts.clocked, k)
                    == [ForOf(env.vhdlName(param), Expressions.LowerRange(env, ranges[0], TO).value,
                              OrderedMaps.Lookup(body.stmts.clocked, k))])
            && (forall p :: p != pid ==> OrderedMaps.Lookup(r.stmts.unclocked, p) == [])
  {
    var res := Merge(Empty(), body, true);
    assert res.stmts == Empty().stmts;
    if |body.stmts.clocked.keys| != 0 || pid in body.stmts.unclocked.entries {
      ForClockedBuckets(env.normalize, env.vhdlName(param), Expressions.LowerRange(env, ranges[0], TO).value, body);
    }
    OnlyProcess(AssembleFor(env, param, ranges, pid, source, body).value, pid);
  }

  /** A context whose only combinational key, if any, is `pid` has no
      combinational statements under any other process. */
  lemma OnlyProcess(c: Ctx, pid: int)
    requires Valid(c) && (c.stmts.unclocked.keys == [] || c.stmts.unclocked.keys == [pid])
    ensures forall p :: p != pid ==> OrderedMaps.Lookup(c.stmts.unclocked, p) == []
  {
    forall p | p != pid ensures OrderedMaps.Lookup(c.stmts.unclocked, p) == [] {
      assert p !in c.stmts.unclocked.keys;
    }
  }

  // ----- the switch width -----

  /** The width of a switch expression of primitive type, which must be a
      constant; other types have no width. */
  function SwitchWidth(env: Env, caseExp: Hdl.Expr): (r: Result<Option<int>>)
    ensures r.Ok? && r.value.Some? ==>
              env.typeOf(caseExp).Some? && env.typeOf(caseExp).value.Primitive?
              && env.typeOf(caseExp).value.width.Some?
              && env.valueOf(env.typeOf(caseExp).value.width.value) == r.value
    ensures r.Ok? && r.value.None? <==> env.typeOf(caseExp).None? || !env.typeOf(caseExp).value.Primitive?
    ensures r.Err? ==> r.fault == SwitchWidthNotConstant
  {
    match env.typeOf(caseExp)
    case Some(Primitive(_, w)) =>
      if w.None? then Err(SwitchWidthNotConstant)
      else
        var v :- Need(env.valueOf(w.value), SwitchWidthNotConstant);
        Ok(Some(v))
    case _ => Ok(None)
  }
}
