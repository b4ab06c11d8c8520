/** Expression lowering: one VHDL expression per PSHDL expression, by
    structural recursion, together with the function-call providers that
    answer calls in expression position. */
module Expressions {
  import opened Wrappers
  import Hdl
  import opened Vhdl
  import Literals
  import Libraries
  import opened Env
  import Strings

  // ----- operator tables -----

  function ArithBinOp(op: Hdl.ArithOpType): BinOp {
    match op
    case PLUS => Add
    case MINUS => Subtract
    case DIV => Divide
    case MUL => Multiply
    case MOD => Rem
    case POW => Pow
  }

  /** The logical and the bitwise forms share one VHDL operator. */
  function BitBinOp(op: Hdl.BitOpType): BinOp {
    match op
    case AND => And
    case LOGI_AND => And
    case OR => Or
    case LOGI_OR => Or
    case XOR => Xor
  }

  function EqualityBinOp(op: Hdl.EqualityOpType): BinOp {
    match op
    case EQ => Equals
    case NOT_EQ => NotEquals
    case LESS => LessThan
    case LESS_EQ => LessEquals
    case GREATER => GreaterThan
    case GREATER_EQ => GreaterEquals
  }

  /** The VHDL operator of an operator expression; nothing for an operator
      whose type is missing. */
  function OperatorOf(e: Hdl.Expr): Option<BinOp>
    requires e.ArithOp? || e.BitOp? || e.EqualityOp?
  {
    match e
    case ArithOp(op, _, _) => if op.Some? then Some(ArithBinOp(op.value)) else None
    case BitOp(op, _, _) => if op.Some? then Some(BitBinOp(op.value)) else None
    case EqualityOp(op, _, _) => if op.Some? then Some(EqualityBinOp(op.value)) else None
  }

  /** TypeExtension.typeOfForced cast to HDLPrimitive: a type that cannot be
      inferred throws, and so does a non-primitive type. */
  function PrimitiveOf(t: Option<Hdl.HType>): (r: Result<Hdl.HType>)
    ensures r.Ok? <==> t.Some? && t.value.Primitive?
    ensures r.Ok? ==> r.value == t.value
    ensures t.None? ==> r == Err(Fault.Unresolved)
  {
    match t
    case None => Err(Fault.Unresolved)
    case Some(p) => if p.Primitive? then Ok(p) else Err(ClassCast)
  }

  /** The VHDL name the enum declaration gives a literal of an enum. */
  function EnumLiteralName(env: Env, enumName: string, literal: string): string {
    env.vhdlName("$" + enumName + "_" + literal)
  }

  /** `others => '0'`, the fill value of a top-level array initialiser. */
  const ZeroFill: VExpr := Aggregate([Assoc(CharLit('0'), Others)])

  /** A left-nested chain of concatenations: `(((v & r1) & r2) & …)`. */
  function ConcatChain(v: VExpr, rest: seq<VExpr>): VExpr
    decreases |rest|
  {
    if |rest| == 0 then v else Concatenate(ConcatChain(v, rest[..|rest| - 1]), rest[|rest| - 1])
  }

  // ----- the lowering -----

  /** toVHDL(HDLExpression).  Operands are lowered left to right and the
      first throw wins. */
  function Lower(env: Env, e: Hdl.Expr): Result<VExpr>
    decreases e, if e.ArrayInit? then 2 else 1, 0
  {
    match e
    case Lit(lit) => Literals.Lower(lit)
    case VarRef(ref) =>
      var name :- Hdl.LastSegment(ref.name);
      var base :=
        if ref.frozen && ref.target.Some? && ref.target.value.memory.Some?
        then VariableName(env.vhdlName(ref.target.value.memory.value))
        else SignalName(env.vhdlName(name));
      LowerRef(env, base, ref)
    case InterfaceRef(hIf, ifArray, iref) =>
      var base := SignalName(env.mapName(hIf, iref.name));
      var idx :- LowerAll(env, ifArray, 0);
      LowerRef(env, if |ifArray| != 0 then ArrayElement(base, idx) else base, iref)
    case EnumRef(enumName, literal) =>
      var en :- Need(enumName, Fault.Unresolved);
      var lit :- Hdl.LastSegment(literal);
      Ok(SignalName(EnumLiteralName(env, en, lit)))
    case ArithOp(_, left, right) => LowerOperator(env, e, left, right)
    case BitOp(_, left, right) => LowerOperator(env, e, left, right)
    case EqualityOp(_, left, right) => LowerOperator(env, e, left, right)
    case ShiftOp(op, left, right) =>
      var t :- PrimitiveOf(env.typeOf(left));
      var l :- Lower(env, left);
      var r :- Lower(env, right);
      Ok(Libraries.Shift(env.castType, l, r, t.ptype, op))
    case Manip(mop, target, castTo) => LowerManip(env, e)
    case Concat(cats) =>
      if |cats| == 0 then Err(IndexOutOfBounds)
      else
        var vs :- LowerAll(env, cats, 0);
        Ok(ConcatChain(vs[0], vs[1..]))
    case Ternary(c, t, f) => TernaryOf(Lower(env, c), Lower(env, t), Lower(env, f))
    case ArrayInit(_) => ToArray(env, e, ZeroFill)
    case FnCall(call) =>
      var v :- Provide(env, call, 0);
      Ok(v.GetOr(NullExpr))
    case FunctionDef => Err(NotImplemented)
    case UnresolvedFragment(_) => Err(NotImplemented)
    case OtherExpr => Err(NotImplemented)
  }

  /** An arithmetic, bit or equality operator: the operator applied to both
      operands and wrapped in parentheses; a missing operator type throws
      before either operand is lowered. */
  function LowerOperator(env: Env, e: Hdl.Expr, left: Hdl.Expr, right: Hdl.Expr): Result<VExpr>
    requires e.ArithOp? || e.BitOp? || e.EqualityOp?
    requires left < e && right < e
    decreases e, 0, 0
  {
    match OperatorOf(e)
    case None => Err(NotImplemented)
    case Some(op) =>
      var l :- Lower(env, left);
      var r :- Lower(env, right);
      Ok(Paren(Binary(op, l, r)))
  }

  /** Negations and casts. */
  function LowerManip(env: Env, e: Hdl.Expr): Result<VExpr>
    requires e.Manip?
    decreases e, 0, 0
  {
    match e.mop
    case ARITH_NEG =>
      var v :- Lower(env, e.target);
      Ok(Minus(v))
    case LOGIC_NEG =>
      var v :- Lower(env, e.target);
      Ok(Not(v))
    case BIT_NEG =>
      var v :- Lower(env, e.target);
      Ok(Not(v))
    case CAST =>
      var to :- Need(e.castTo, NullPointer);
      if !to.Primitive? then Err(ClassCast)
      else if to.ptype == Hdl.STRING then Lower(env, e.target)
      else if e.target.Lit? then Ok(CastLiteral(e.target.lit, to.ptype, to.width))
      else
        var t :- PrimitiveOf(env.typeOf(e.target));
        var v :- Lower(env, e.target);
        match to.width
        case Some(w) => Ok(Cast(Resize(v, t.ptype, w), env.resizeType(t.ptype, w), to.ptype))
        case None => Ok(Cast(v, t.ptype, to.ptype))
  }

  /** The elements `es[from..]`, lowered in order. */
  function LowerAll(env: Env, es: seq<Hdl.Expr>, from: nat): (r: Result<seq<VExpr>>)
    requires from <= |es|
    ensures r.Ok? ==> |r.value| == |es| - from
    decreases es, 0, |es| - from
  {
    if from == |es| then Ok([])
    else
      var v :- Lower(env, es[from]);
      var vs :- LowerAll(env, es, from + 1);
      Ok([v] + vs)
  }

  /** getRef: array indices first, then at most one bit access. */
  function LowerRef(env: Env, base: VExpr, ref: Hdl.Ref): Result<VExpr>
    decreases ref, 0, 0
  {
    var withArray :-
      if |ref.arrayIdx| != 0 then
        var idx :- LowerAll(env, ref.arrayIdx, 0);
        Ok(ArrayElement(base, idx))
      else Ok(base);
    if |ref.bits| == 0 then Ok(withArray)
    else if |ref.bits| > 1 then Err(MultiBitAccess)
    else if ref.bits[0].from.None? then
      var i :- Lower(env, ref.bits[0].to);
      Ok(ArrayElement(withArray, [i]))
    else
      var rg :- LowerRange(env, ref.bits[0], DOWNTO);
      Ok(Slice(withArray, rg))
  }

  /** toVHDL(HDLRange, dir): each bound is simplified with simplifyWidth
      and then lowered, `to` first; a range without `from` is the single
      index `to dir to`. */
  function LowerRange(env: Env, rng: Hdl.Range, dir: Dir): (r: Result<VRange>)
    ensures r.Ok? ==> r.value.dir == dir
    ensures r.Ok? && rng.from.None? ==> r.value.from == r.value.to
    decreases rng, 0, 0
  {
    var to :- LowerBound(env, rng, rng.to);
    match rng.from
    case None => Ok(VRange(to, dir, to))
    case Some(f) =>
      var from :- LowerBound(env, rng, f);
      Ok(VRange(from, dir, to))
  }

  /** One bound of a range, simplified and lowered: the literal of the
      constant it folds to, or the bound itself lowered. */
  function LowerBound(env: Env, rng: Hdl.Range, bound: Hdl.Expr): Result<VExpr>
    decreases bound, 3, 0
  {
    match env.simplifyWidth(rng, bound)
    case Some(v) => Literals.Lower(Hdl.IntLiteral(v))
    case None => Lower(env, bound)
  }

  /** LowerBound of the literal `v`, which needs no recursion. */
  function LowerConstBound(env: Env, rng: Hdl.Range, v: int): Result<VExpr> {
    match env.simplifyWidth(rng, Hdl.Lit(Hdl.IntLiteral(v)))
    case Some(w) => Literals.Lower(Hdl.IntLiteral(w))
    case None => Literals.Lower(Hdl.IntLiteral(v))
  }

  /** The expression simplifyWidth leaves for a bound: the literal of the
      constant it folds to, or the bound unchanged. */
  function SimplifiedBound(env: Env, rng: Hdl.Range, bound: Hdl.Expr): Hdl.Expr {
    match env.simplifyWidth(rng, bound)
    case Some(v) => Hdl.Lit(Hdl.IntLiteral(v))
    case None => bound
  }

  /** simplifyWidth folds a literal to its own value, as constant
      evaluation does, or leaves it as it is. */
  ghost predicate KeepsLiterals(env: Env) {
    forall rng: Hdl.Range, v: int :: env.simplifyWidth(rng, Hdl.Lit(Hdl.IntLiteral(v))) in {None, Some(v)}
  }

  /** Where simplifyWidth keeps literals, the literal bound v lowers to the
      decimal literal of v. */
  lemma KeptLiteral(env: Env, rng: Hdl.Range, v: int)
    requires KeepsLiterals(env)
    requires -Literals.Pow2(31) <= v < Literals.Pow2(31)
    ensures LowerConstBound(env, rng, v) == Ok(DecimalLit(Strings.IntToString(v)))
  {
    assert env.simplifyWidth(rng, Hdl.Lit(Hdl.IntLiteral(v))) in {None, Some(v)};
    Literals.IntLiteralIsDecimal(v);
  }

  /** A bound is lowered as simplifyWidth leaves it. */
  lemma BoundSimplified(env: Env, rng: Hdl.Range, bound: Hdl.Expr)
    ensures LowerBound(env, rng, bound) == Lower(env, SimplifiedBound(env, rng, bound))
  {
  }

  /** toVHDL(HDLRange, dir) lowers the simplified bounds, `to` first: it
      fails as the first bound that fails, and otherwise spans from the
      lowered `from` (or `to` again when there is none) to the lowered `to`. */
  lemma RangeOfSimplifiedBounds(env: Env, rng: Hdl.Range, dir: Dir)
    ensures var to := Lower(env, SimplifiedBound(env, rng, rng.to));
            var from := if rng.from.Some? then Lower(env, SimplifiedBound(env, rng, rng.from.value)) else to;
            var r := LowerRange(env, rng, dir);
            && (to.Err? ==> r == Err(to.fault))
            && (to.Ok? && from.Err? ==> r == Err(from.fault))
            && (to.Ok? && from.Ok? ==> r == Ok(VRange(from.value, dir, to.value)))
  {
    BoundSimplified(env, rng, rng.to);
    if rng.from.Some? {
      BoundSimplified(env, rng, rng.from.value);
    }
  }

  /** A bound that folds to a constant is that constant's decimal literal,
      whatever the bound was. */
  lemma FoldedBound(env: Env, rng: Hdl.Range, bound: Hdl.Expr, v: int)
    requires env.simplifyWidth(rng, bound) == Some(v)
    requires -Literals.Pow2(31) <= v < Literals.Pow2(31)
    ensures LowerBound(env, rng, bound) == Ok(DecimalLit(Strings.IntToString(v)))
  {
    Literals.IntLiteralIsDecimal(v);
  }

  /** The range highZ(n) builds: from the literal 1 to n. */
  function HighZRange(n: Hdl.Expr): (r: Hdl.Range)
    ensures r.from == Some(Hdl.Lit(Hdl.IntLiteral(1))) && r.to == n
  {
    Hdl.Range(Some(Hdl.Lit(Hdl.IntLiteral(1))), n)
  }

  /** toVHDLArray: a nested array initialiser becomes an aggregate of
      positional choices, filled with `others => other`. */
  function ToArray(env: Env, e: Hdl.Expr, other: VExpr): Result<VExpr>
    decreases e, if e.ArrayInit? then 1 else 2, 0
  {
    match e
    case ArrayInit(exps) =>
      if |exps| == 1 then Lower(env, exps[0])
      else
        var assocs :- ToArrayElems(env, exps, other, 0);
        Ok(Aggregate(assocs + [Assoc(other, Others)]))
    case _ => Lower(env, e)
  }

  function ToArrayElems(env: Env, exps: seq<Hdl.Expr>, other: VExpr, from: nat): (r: Result<seq<Assoc>>)
    requires from <= |exps|
    ensures r.Ok? ==> |r.value| == |exps| - from
    decreases exps, 0, |exps| - from
  {
    if from == |exps| then Ok([])
    else
      var v :- ToArray(env, exps[from], other);
      var rest :- ToArrayElems(env, exps, other, from + 1);
      Ok([Assoc(v, ChoiceExpr(DecimalInt(from)))] + rest)
  }

  /** toOutputExpression: the providers from index i on are asked in order
      and the first answer wins; nothing when none answers. */
  function Provide(env: Env, call: Hdl.Call, i: nat): Result<Option<VExpr>>
    requires i <= |env.providers|
    decreases call, 1, |env.providers| - i
  {
    if i == |env.providers| then Ok(None)
    else
      var answer :-
        match env.providers[i]
        case Builtin => BuiltinExpr(env, call)
        case Foreign(onExpr, _) => Ok(onExpr(call));
      if answer.Some? then Ok(answer) else Provide(env, call, i + 1)
  }

  /** VHDLFunctions.toVHDLExpression: the built-in functions in expression
      position. */
  function BuiltinExpr(env: Env, call: Hdl.Call): Result<Option<VExpr>>
    decreases call, 0, 0
  {
    var name :- Hdl.LastSegment(call.name);
    if name == "max" || name == "min" || name == "abs" then
      var args :- LowerAll(env, call.params, 0);
      Ok(Some(FunctionCall(Some(FunctionDecl(name, NoName, [])), args)))
    else if name == "highZ" then
      if |call.params| == 0 then Ok(Some(CharLit('Z')))
      else
        var rng := HighZRange(call.params[0]);
        var to :- LowerBound(env, rng, call.params[0]);
        var one :- LowerConstBound(env, rng, 1);
        Ok(Some(Aggregate([Assoc(CharLit('Z'), ChoiceRange(VRange(one, TO, to)))])))
    else if name == "log2ceil" then
      var args :- LowerAll(env, call.params, 0);
      Ok(Some(FunctionCall(Some(Libraries.Log2Ceil), args)))
    else if name == "log2floor" then
      var args :- LowerAll(env, call.params, 0);
      Ok(Some(FunctionCall(Some(Libraries.Log2Floor), args)))
    else Ok(None)
  }

  // ----- every operator is parenthesised -----

  /** Every binary operator node sits directly inside parentheses, so the
      printed text never depends on VHDL operator precedence. */
  predicate Wrapped(v: VExpr) {
    match v
    case Paren(inner) => if inner.Binary? then Wrapped(inner.l) && Wrapped(inner.r) else Wrapped(inner)
    case Binary(_, _, _) => false
    case Minus(o) => Wrapped(o)
    case Not(o) => Wrapped(o)
    case Concatenate(l, r) => Wrapped(l) && Wrapped(r)
    case ArrayElement(p, idx) => Wrapped(p) && forall i :: 0 <= i < |idx| ==> Wrapped(idx[i])
    case Slice(p, rg) => Wrapped(p) && Wrapped(rg.from) && Wrapped(rg.to)
    case Aggregate(assocs) => forall i :: 0 <= i < |assocs| ==> Wrapped(assocs[i].value) && ChoiceWrapped(assocs[i].choice)
    case FunctionCall(_, args) => forall i :: 0 <= i < |args| ==> Wrapped(args[i])
    case TypeConversion(_, x) => Wrapped(x)
    case Resize(x, _, _) => Wrapped(x)
    case Cast(x, _, _) => Wrapped(x)
    case Physical(a, _) => Wrapped(a)
    case _ => true
  }

  predicate ChoiceWrapped(c: Choice) {
    match c
    case Others => true
    case ChoiceExpr(x) => Wrapped(x)
    case ChoiceRange(r) => Wrapped(r.from) && Wrapped(r.to)
  }

  /** The other providers keep to the same rule. */
  ghost predicate ForeignWrapped(env: Env) {
    forall i, call :: 0 <= i < |env.providers| && env.providers[i].Foreign? && env.providers[i].onExpr(call).Some?
      ==> Wrapped(env.providers[i].onExpr(call).value)
  }

  lemma {:induction false} ConcatChainWrapped(v: VExpr, rest: seq<VExpr>)
    requires Wrapped(v) && forall i :: 0 <= i < |rest| ==> Wrapped(rest[i])
    ensures Wrapped(ConcatChain(v, rest))
    decreases |rest|
  {
    if |rest| > 0 {
      ConcatChainWrapped(v, rest[..|rest| - 1]);
    }
  }

  lemma LiteralWrapped(lit: Hdl.Literal)
    ensures Literals.Lower(lit).Ok? ==> Wrapped(Literals.Lower(lit).value)
  {
  }

  /** Whatever the lowering produces has all its operators parenthesised. */
  lemma {:induction false} LowerWrapped(env: Env, e: Hdl.Expr)
    requires ForeignWrapped(env)
    ensures Lower(env, e).Ok? ==> Wrapped(Lower(env, e).value)
    decreases e, if e.ArrayInit? then 2 else 1, 0
  {
    match e
    case Lit(lit) => LiteralWrapped(lit);
    case VarRef(_) => VarRefWrapped(env, e);
    case InterfaceRef(_, _, _) => InterfaceRefWrapped(env, e);
    case EnumRef(_, _) =>
    case ArithOp(_, left, right) => LowerOperatorWrapped(env, e, left, right);
    case BitOp(_, left, right) => LowerOperatorWrapped(env, e, left, right);
    case EqualityOp(_, left, right) => LowerOperatorWrapped(env, e, left, right);
    case ShiftOp(_, _, _) => ShiftWrapped(env, e);
    case Manip(_, _, _) => LowerManipWrapped(env, e);
    case Concat(_) => ConcatWrapped(env, e);
    case Ternary(_, _, _) => TernaryWrapped(env, e);
    case ArrayInit(_) => ToArrayWrapped(env, e, ZeroFill);
    case FnCall(call) => ProvideWrapped(env, call, 0);
    case FunctionDef =>
    case UnresolvedFragment(_) =>
    case OtherExpr =>
  }

  lemma {:induction false} VarRefWrapped(env: Env, e: Hdl.Expr)
    requires ForeignWrapped(env) && e.VarRef?
    ensures Lower(env, e).Ok? ==> Wrapped(Lower(env, e).value)
    decreases e, 0, 0
  {
    var ref := e.ref;
    if Hdl.LastSegment(ref.name).Ok? {
      var base :=
        if ref.frozen && ref.target.Some? && ref.target.value.memory.Some?
        then VariableName(env.vhdlName(ref.target.value.memory.value))
        else SignalName(env.vhdlName(Hdl.LastSegment(ref.name).value));
      assert Lower(env, e) == LowerRef(env, base, ref);
      LowerRefWrapped(env, base, ref);
    }
  }

  lemma {:induction false} InterfaceRefWrapped(env: Env, e: Hdl.Expr)
    requires ForeignWrapped(env) && e.InterfaceRef?
    ensures Lower(env, e).Ok? ==> Wrapped(Lower(env, e).value)
    decreases e, 0, 0
  {
    LowerAllWrapped(env, e.ifArray, 0);
    var base := SignalName(env.mapName(e.hIf, e.iref.name));
    if LowerAll(env, e.ifArray, 0).Ok? {
      var b := if |e.ifArray| != 0 then ArrayElement(base, LowerAll(env, e.ifArray, 0).value) else base;
      assert Lower(env, e) == LowerRef(env, b, e.iref);
      LowerRefWrapped(env, b, e.iref);
    }
  }

  lemma CallWrapped(v: VExpr, a: VExpr, b: VExpr)
    requires v.FunctionCall? && v.args == [a, b]
    requires Wrapped(a) && Wrapped(b)
    ensures Wrapped(v)
  {
    assert forall i :: 0 <= i < |v.args| ==> v.args[i] == a || v.args[i] == b;
  }

  lemma {:induction false} ShiftWrapped(env: Env, e: Hdl.Expr)
    requires ForeignWrapped(env) && e.ShiftOp?
    ensures Lower(env, e).Ok? ==> Wrapped(Lower(env, e).value)
    decreases e, 0, 0
  {
    LowerWrapped(env, e.left);
    LowerWrapped(env, e.right);
    var t := PrimitiveOf(env.typeOf(e.left));
    var l := Lower(env, e.left);
    var r := Lower(env, e.right);
    if t.Ok? && l.Ok? && r.Ok? {
      var v := Libraries.Shift(env.castType, l.value, r.value, t.value.ptype, e.sop);
      assert Lower(env, e) == Ok(v);
      CallWrapped(v, l.value, r.value);
    }
  }

  lemma {:induction false} ConcatWrapped(env: Env, e: Hdl.Expr)
    requires ForeignWrapped(env) && e.Concat?
    ensures Lower(env, e).Ok? ==> Wrapped(Lower(env, e).value)
    decreases e, 0, 0
  {
    LowerAllWrapped(env, e.cats, 0);
    if |e.cats| > 0 && LowerAll(env, e.cats, 0).Ok? {
      var vs := LowerAll(env, e.cats, 0).value;
      ConcatChainWrapped(vs[0], vs[1..]);
    }
  }

  lemma {:induction false} TernaryWrapped(env: Env, e: Hdl.Expr)
    requires ForeignWrapped(env) && e.Ternary?
    ensures Lower(env, e).Ok? ==> Wrapped(Lower(env, e).value)
    decreases e, 0, 0
  {
    LowerWrapped(env, e.cond);
    LowerWrapped(env, e.thenExpr);
    LowerWrapped(env, e.elseExpr);
  }

  lemma {:induction false} LowerOperatorWrapped(env: Env, e: Hdl.Expr, left: Hdl.Expr, right: Hdl.Expr)
    requires ForeignWrapped(env)
    requires e.ArithOp? || e.BitOp? || e.EqualityOp?
    requires left < e && right < e
    ensures LowerOperator(env, e, left, right).Ok? ==> Wrapped(LowerOperator(env, e, left, right).value)
    decreases e, 0, 0
  {
    LowerWrapped(env, left);
    LowerWrapped(env, right);
  }

  lemma {:induction false} LowerManipWrapped(env: Env, e: Hdl.Expr)
    requires ForeignWrapped(env)
    requires e.Manip?
    ensures LowerManip(env, e).Ok? ==> Wrapped(LowerManip(env, e).value)
    decreases e, 0, 0
  {
    LowerWrapped(env, e.target);
  }

  lemma {:induction false} LowerAllWrapped(env: Env, es: seq<Hdl.Expr>, from: nat)
    requires ForeignWrapped(env)
    requires from <= |es|
    ensures LowerAll(env, es, from).Ok? ==>
              forall i :: 0 <= i < |LowerAll(env, es, from).value| ==> Wrapped(LowerAll(env, es, from).value[i])
    decreases es, 0, |es| - from
  {
    if from < |es| {
      LowerWrapped(env, es[from]);
      LowerAllWrapped(env, es, from + 1);
    }
  }

  lemma {:induction false} LowerRefWrapped(env: Env, base: VExpr, ref: Hdl.Ref)
    requires ForeignWrapped(env)
    requires Wrapped(base)
    ensures LowerRef(env, base, ref).Ok? ==> Wrapped(LowerRef(env, base, ref).value)
    decreases ref, 0, 0
  {
    LowerAllWrapped(env, ref.arrayIdx, 0);
    if |ref.bits| == 1 {
      if ref.bits[0].from.None? {
        LowerWrapped(env, ref.bits[0].to);
      } else {
        LowerRangeWrapped(env, ref.bits[0], DOWNTO);
      }
    }
  }

  lemma {:induction false} LowerRangeWrapped(env: Env, r: Hdl.Range, dir: Dir)
    requires ForeignWrapped(env)
    ensures LowerRange(env, r, dir).Ok? ==>
              Wrapped(LowerRange(env, r, dir).value.from) && Wrapped(LowerRange(env, r, dir).value.to)
    decreases r, 0, 0
  {
    LowerBoundWrapped(env, r, r.to);
    if r.from.Some? {
      LowerBoundWrapped(env, r, r.from.value);
    }
  }

  lemma {:induction false} LowerBoundWrapped(env: Env, rng: Hdl.Range, bound: Hdl.Expr)
    requires ForeignWrapped(env)
    ensures LowerBound(env, rng, bound).Ok? ==> Wrapped(LowerBound(env, rng, bound).value)
    decreases bound, 3, 0
  {
    match env.simplifyWidth(rng, bound)
    case Some(v) => LiteralWrapped(Hdl.IntLiteral(v));
    case None => LowerWrapped(env, bound);
  }

  lemma ConstBoundWrapped(env: Env, rng: Hdl.Range, v: int)
    ensures LowerConstBound(env, rng, v).Ok? ==> Wrapped(LowerConstBound(env, rng, v).value)
  {
    match env.simplifyWidth(rng, Hdl.Lit(Hdl.IntLiteral(v)))
    case Some(w) => LiteralWrapped(Hdl.IntLiteral(w));
    case None => LiteralWrapped(Hdl.IntLiteral(v));
  }

  lemma {:induction false} ToArrayWrapped(env: Env, e: Hdl.Expr, other: VExpr)
    requires ForeignWrapped(env)
    requires Wrapped(other)
    ensures ToArray(env, e, other).Ok? ==> Wrapped(ToArray(env, e, other).value)
    decreases e, if e.ArrayInit? then 1 else 2, 0
  {
    match e
    case ArrayInit(exps) =>
      if |exps| == 1 {
        LowerWrapped(env, exps[0]);
      } else {
        ToArrayElemsWrapped(env, exps, other, 0);
      }
    case _ => LowerWrapped(env, e);
  }

  lemma {:induction false} ToArrayElemsWrapped(env: Env, exps: seq<Hdl.Expr>, other: VExpr, from: nat)
    requires ForeignWrapped(env)
    requires Wrapped(other)
    requires from <= |exps|
    ensures ToArrayElems(env, exps, other, from).Ok? ==>
              forall i :: 0 <= i < |ToArrayElems(env, exps, other, from).value| ==>
                Wrapped(ToArrayElems(env, exps, other, from).value[i].value)
                && ChoiceWrapped(ToArrayElems(env, exps, other, from).value[i].choice)
    decreases exps, 0, |exps| - from
  {
    if from < |exps| {
      ToArrayWrapped(env, exps[from], other);
      ToArrayElemsWrapped(env, exps, other, from + 1);
    }
  }

  lemma {:induction false} ProvideWrapped(env: Env, call: Hdl.Call, i: nat)
    requires ForeignWrapped(env)
    requires i <= |env.providers|
    ensures Provide(env, call, i).Ok? && Provide(env, call, i).value.Some? ==> Wrapped(Provide(env, call, i).value.value)
    decreases call, 1, |env.providers| - i
  {
    if i < |env.providers| {
      if env.providers[i].Builtin? {
        BuiltinExprWrapped(env, call);
      }
      ProvideWrapped(env, call, i + 1);
    }
  }

  lemma {:induction false} BuiltinExprWrapped(env: Env, call: Hdl.Call)
    requires ForeignWrapped(env)
    ensures BuiltinExpr(env, call).Ok? && BuiltinExpr(env, call).value.Some? ==> Wrapped(BuiltinExpr(env, call).value.value)
    decreases call, 0, 0
  {
    LowerAllWrapped(env, call.params, 0);
    var name := Hdl.LastSegment(call.name);
    if name == Ok("highZ") && |call.params| > 0 {
      var rng := HighZRange(call.params[0]);
      LowerBoundWrapped(env, rng, call.params[0]);
      ConstBoundWrapped(env, rng, 1);
      var to := LowerBound(env, rng, call.params[0]);
      var one := LowerConstBound(env, rng, 1);
      if to.Ok? && one.Ok? {
        assert ChoiceWrapped(ChoiceRange(VRange(one.value, TO, to.value)));
      }
    }
  }

  // ----- operators, casts and ternaries -----

  /** Each operator lowers to its VHDL operator applied to the lowered
      operands, inside parentheses; an operator without a type throws before
      its operands are looked at. */
  lemma OperatorShape(env: Env, e: Hdl.Expr)
    requires e.ArithOp? || e.BitOp? || e.EqualityOp?
    ensures OperatorOf(e).None? ==> Lower(env, e) == Err(NotImplemented)
    ensures OperatorOf(e).Some? && Lower(env, e.left).Ok? && Lower(env, e.right).Ok? ==>
              Lower(env, e) == Ok(Paren(Binary(OperatorOf(e).value, Lower(env, e.left).value, Lower(env, e.right).value)))
    ensures OperatorOf(e).Some? && Lower(env, e.left).Err? ==> Lower(env, e) == Err(Lower(env, e.left).fault)
  {
  }

  /** The logical and the bitwise forms of `and` and `or` lower identically. */
  lemma LogicalIsBitwise(env: Env, l: Hdl.Expr, r: Hdl.Expr)
    ensures Lower(env, Hdl.BitOp(Some(Hdl.LOGI_AND), l, r)) == Lower(env, Hdl.BitOp(Some(Hdl.AND), l, r))
    ensures Lower(env, Hdl.BitOp(Some(Hdl.LOGI_OR), l, r)) == Lower(env, Hdl.BitOp(Some(Hdl.OR), l, r))
    ensures Lower(env, Hdl.BitOp(Some(Hdl.AND), l, r)) != Lower(env, Hdl.BitOp(Some(Hdl.OR), l, r))
            || Lower(env, Hdl.BitOp(Some(Hdl.AND), l, r)).Err?
  {
  }

  /** A ternary always calls the logic-vector overload of ternaryOp, with
      (condition, then, else) in that order, whatever the operand types. */
  lemma TernaryShape(env: Env, c: Hdl.Expr, t: Hdl.Expr, f: Hdl.Expr)
    ensures Lower(env, Hdl.Ternary(c, t, f)).Ok? <==> Lower(env, c).Ok? && Lower(env, t).Ok? && Lower(env, f).Ok?
    ensures Lower(env, Hdl.Ternary(c, t, f)).Ok? ==>
              && Lower(env, Hdl.Ternary(c, t, f)).value.FunctionCall?
              && Lower(env, Hdl.Ternary(c, t, f)).value.callee == Some(Libraries.TernaryOp(StdLogicVector))
              && Lower(env, Hdl.Ternary(c, t, f)).value.args == [Lower(env, c).value, Lower(env, t).value, Lower(env, f).value]
  {
    var e := Hdl.Ternary(c, t, f);
    assert Lower(env, e) == TernaryOf(Lower(env, e.cond), Lower(env, e.thenExpr), Lower(env, e.elseExpr));
  }

  /** The function a ternary calls is declared by the Types package: it is
      the package's one overload returning a logic vector. */
  lemma TernaryCallsTypesPackage(env: Env, c: Hdl.Expr, t: Hdl.Expr, f: Hdl.Expr)
    requires Lower(env, Hdl.Ternary(c, t, f)).Ok?
    ensures Lower(env, Hdl.Ternary(c, t, f)).value.FunctionCall?
    ensures var callee := Lower(env, Hdl.Ternary(c, t, f)).value.callee;
            && callee.Some? && callee.value in Libraries.TypesPackage
            && forall d :: d in Libraries.TypesPackage && d.returnType == StdLogicVector ==> d == callee.value
  {
    TernaryShape(env, c, t, f);
    Libraries.TypesPackageShape();
  }

  /** The call a ternary lowers to, from its three lowered parts; the first
      failing part is the failure. */
  function TernaryOf(lc: Result<VExpr>, lt: Result<VExpr>, lf: Result<VExpr>): Result<VExpr> {
    var vc :- lc;
    var vt :- lt;
    var vf :- lf;
    Ok(FunctionCall(Some(Libraries.TernarySlv), [vc, vt, vf]))
  }

  /** A cast to STRING lowers exactly as its operand; a cast of a literal is
      handed to the casts library with the literal itself; the two negations
      of bits and booleans lower alike. */
  lemma CastShapes(env: Env, x: Hdl.Expr, lit: Hdl.Literal, t: Hdl.PrimitiveType, w: Option<Hdl.Expr>)
    ensures Lower(env, Hdl.Manip(Hdl.CAST, x, Some(Hdl.Primitive(Hdl.STRING, w)))) == Lower(env, x)
    ensures t != Hdl.STRING ==>
              Lower(env, Hdl.Manip(Hdl.CAST, Hdl.Lit(lit), Some(Hdl.Primitive(t, w)))) == Ok(CastLiteral(lit, t, w))
    ensures Lower(env, Hdl.Manip(Hdl.CAST, x, None)) == Err(NullPointer)
    ensures Lower(env, Hdl.Manip(Hdl.LOGIC_NEG, x, None)) == Lower(env, Hdl.Manip(Hdl.BIT_NEG, x, None))
  {
    CastToString(env, x, w);
    CastOfLiteral(env, lit, t, w);
    CastWithoutType(env, x);
    NegationsAlike(env, x);
  }

  lemma CastToString(env: Env, x: Hdl.Expr, w: Option<Hdl.Expr>)
    ensures Lower(env, Hdl.Manip(Hdl.CAST, x, Some(Hdl.Primitive(Hdl.STRING, w)))) == Lower(env, x)
  {
    var e := Hdl.Manip(Hdl.CAST, x, Some(Hdl.Primitive(Hdl.STRING, w)));
    assert LowerManip(env, e) == Lower(env, x);
  }

  lemma CastOfLiteral(env: Env, lit: Hdl.Literal, t: Hdl.PrimitiveType, w: Option<Hdl.Expr>)
    ensures t != Hdl.STRING ==>
              Lower(env, Hdl.Manip(Hdl.CAST, Hdl.Lit(lit), Some(Hdl.Primitive(t, w)))) == Ok(CastLiteral(lit, t, w))
  {
  }

  lemma CastWithoutType(env: Env, x: Hdl.Expr)
    ensures Lower(env, Hdl.Manip(Hdl.CAST, x, None)) == Err(NullPointer)
  {
  }

  lemma NegationsAlike(env: Env, x: Hdl.Expr)
    ensures Lower(env, Hdl.Manip(Hdl.LOGIC_NEG, x, None)) == Lower(env, Hdl.Manip(Hdl.BIT_NEG, x, None))
  {
  }

  // ----- concatenation -----

  /** Peels k concatenations off the left spine of an expression. */
  function Unchain(v: VExpr, k: nat): Option<seq<VExpr>> {
    if k == 0 then Some([v])
    else if v.Concatenate? then
      match Unchain(v.l, k - 1)
      case Some(p) => Some(p + [v.r])
      case None => None
    else None
  }

  lemma {:induction false} UnchainChain(v: VExpr, rest: seq<VExpr>)
    ensures Unchain(ConcatChain(v, rest), |rest|) == Some([v] + rest)
    decreases |rest|
  {
    if |rest| > 0 {
      var init := rest[..|rest| - 1];
      UnchainChain(v, init);
      assert ConcatChain(v, rest) == Concatenate(ConcatChain(v, init), rest[|rest| - 1]);
      assert Unchain(ConcatChain(v, rest), |rest|) == Some([v] + init + [rest[|rest| - 1]]);
      assert [v] + init + [rest[|rest| - 1]] == [v] + rest;
    } else {
      assert [v] + rest == [v];
    }
  }

  /** Lowering a list: it succeeds exactly when every element lowers, and
      then holds the elements' lowerings in order; otherwise it throws what
      the first failing element throws. */
  lemma {:induction false} LowerAllElementwise(env: Env, es: seq<Hdl.Expr>, from: nat)
    requires from <= |es|
    ensures LowerAll(env, es, from).Ok? <==> forall i :: from <= i < |es| ==> Lower(env, es[i]).Ok?
    ensures LowerAll(env, es, from).Ok? ==>
              forall i :: from <= i < |es| ==> LowerAll(env, es, from).value[i - from] == Lower(env, es[i]).value
    ensures LowerAll(env, es, from).Err? ==>
              exists k :: from <= k < |es| && Lower(env, es[k]).Err? && LowerAll(env, es, from).fault == Lower(env, es[k]).fault
                          && forall i :: from <= i < k ==> Lower(env, es[i]).Ok?
    decreases |es| - from
  {
    if from < |es| {
      LowerAllElementwise(env, es, from + 1);
      if Lower(env, es[from]).Err? {
        assert from <= from < |es| && Lower(env, es[from]).Err?;
      } else if LowerAll(env, es, from + 1).Err? {
        var k :| from + 1 <= k < |es| && Lower(env, es[k]).Err? && LowerAll(env, es, from + 1).fault == Lower(env, es[k]).fault
                 && forall i :: from + 1 <= i < k ==> Lower(env, es[i]).Ok?;
        assert from <= k < |es|;
      }
    }
  }

  /** e1 & e2 & … & en lowers to the left-nested chain
      `Concatenate(…Concatenate(v1, v2)…, vn)` of the lowered operands, in
      order; an empty concatenation throws. */
  lemma ConcatLeftNested(env: Env, cats: seq<Hdl.Expr>)
    ensures |cats| == 0 ==> Lower(env, Hdl.Concat(cats)) == Err(IndexOutOfBounds)
    ensures Lower(env, Hdl.Concat(cats)).Ok? <==> |cats| > 0 && forall i :: 0 <= i < |cats| ==> Lower(env, cats[i]).Ok?
    ensures Lower(env, Hdl.Concat(cats)).Ok? ==>
              && Unchain(Lower(env, Hdl.Concat(cats)).value, |cats| - 1).Some?
              && var vs := Unchain(Lower(env, Hdl.Concat(cats)).value, |cats| - 1).value;
                 |vs| == |cats| && forall i :: 0 <= i < |cats| ==> vs[i] == Lower(env, cats[i]).value
  {
    LowerAllElementwise(env, cats, 0);
    if |cats| > 0 && LowerAll(env, cats, 0).Ok? {
      var vs := LowerAll(env, cats, 0).value;
      UnchainChain(vs[0], vs[1..]);
      assert [vs[0]] + vs[1..] == vs;
    }
  }

  // ----- array initialisers -----

  lemma {:induction false} ToArrayElemsShape(env: Env, exps: seq<Hdl.Expr>, other: VExpr, from: nat)
    requires from <= |exps|
    ensures ToArrayElems(env, exps, other, from).Ok? <==> forall i :: from <= i < |exps| ==> ToArray(env, exps[i], other).Ok?
    ensures ToArrayElems(env, exps, other, from).Ok? ==>
              forall i :: from <= i < |exps| ==>
                ToArrayElems(env, exps, other, from).value[i - from] == Assoc(ToArray(env, exps[i], other).value, ChoiceExpr(DecimalInt(i)))
    decreases |exps| - from
  {
    if from < |exps| {
      ToArrayElemsShape(env, exps, other, from + 1);
      var v, rest := ToArray(env, exps[from], other), ToArrayElems(env, exps, other, from + 1);
      ToArrayElemsStep(env, exps, other, from);
      if v.Ok? && rest.Ok? {
        var r := [Assoc(v.value, ChoiceExpr(DecimalInt(from)))] + rest.value;
        assert forall j :: 1 <= j < |r| ==> r[j] == rest.value[j - 1];
      }
    }
  }

  /** One unfolding of ToArrayElems below the end of the list. */
  lemma ToArrayElemsStep(env: Env, exps: seq<Hdl.Expr>, other: VExpr, from: nat)
    requires from < |exps|
    ensures ToArrayElems(env, exps, other, from)
            == (var v :- ToArray(env, exps[from], other);
                var rest :- ToArrayElems(env, exps, other, from + 1);
                Ok([Assoc(v, ChoiceExpr(DecimalInt(from)))] + rest))
  {
  }

  /** An initialiser of one element is that element; any other becomes an
      aggregate that gives element i the positional choice i, in order, and
      ends with `others => other`.  Nested initialisers share the same fill. */
  lemma ArrayInitShape(env: Env, exps: seq<Hdl.Expr>, other: VExpr)
    ensures |exps| == 1 ==> ToArray(env, Hdl.ArrayInit(exps), other) == Lower(env, exps[0])
    ensures |exps| != 1 ==>
              (ToArray(env, Hdl.ArrayInit(exps), other).Ok? <==> forall i :: 0 <= i < |exps| ==> ToArray(env, exps[i], other).Ok?)
    ensures |exps| != 1 && ToArray(env, Hdl.ArrayInit(exps), other).Ok? ==>
              var v := ToArray(env, Hdl.ArrayInit(exps), other).value;
              && v.Aggregate? && |v.assocs| == |exps| + 1
              && (forall i :: 0 <= i < |exps| ==> v.assocs[i] == Assoc(ToArray(env, exps[i], other).value, ChoiceExpr(DecimalInt(i))))
              && v.assocs[|exps|] == Assoc(other, Others)
  {
    ToArrayElemsShape(env, exps, other, 0);
  }

  /** A top-level initialiser of one element lowers as that element; any
      other lowers, when every element does, to the aggregate of its elements
      at positions 0, 1, … followed by `others => (others => '0')`. */
  lemma ArrayInitZeroFilled(env: Env, exps: seq<Hdl.Expr>)
    ensures |exps| == 1 ==> Lower(env, Hdl.ArrayInit(exps)) == Lower(env, exps[0])
    ensures |exps| != 1 ==>
              (Lower(env, Hdl.ArrayInit(exps)).Ok? <==> forall i :: 0 <= i < |exps| ==> ToArray(env, exps[i], ZeroFill).Ok?)
    ensures |exps| != 1 && Lower(env, Hdl.ArrayInit(exps)).Ok? ==>
              var v := Lower(env, Hdl.ArrayInit(exps)).value;
              && v.Aggregate? && |v.assocs| == |exps| + 1
              && (forall i :: 0 <= i < |exps| ==> v.assocs[i].choice == ChoiceExpr(DecimalInt(i)))
              && v.assocs[|exps|] == Assoc(Aggregate([Assoc(CharLit('0'), Others)]), Others)
  {
    assert Lower(env, Hdl.ArrayInit(exps)) == ToArray(env, Hdl.ArrayInit(exps), ZeroFill);
    ArrayInitShape(env, exps, ZeroFill);
  }

  // ----- references -----

  /** The shape of a lowered reference around its base name: one element
      access carrying all array indices when there are any, then an indexed
      access for a single bit, or a DOWNTO slice for a bit range; a second
      bit range throws once the indices have lowered. */
  lemma RefShape(env: Env, base: VExpr, ref: Hdl.Ref)
    ensures |ref.bits| > 1 && (|ref.arrayIdx| == 0 || LowerAll(env, ref.arrayIdx, 0).Ok?) ==>
              LowerRef(env, base, ref) == Err(MultiBitAccess)
    ensures LowerRef(env, base, ref).Ok? ==>
              var v := LowerRef(env, base, ref).value;
              var inner :=
                if |ref.bits| == 0 then v
                else if v.ArrayElement? then v.prefix else if v.Slice? then v.prefix else v;
              && |ref.bits| <= 1
              && (|ref.bits| == 1 && ref.bits[0].from.None? ==> v.ArrayElement? && |v.indices| == 1)
              && (|ref.bits| == 1 && ref.bits[0].from.Some? ==> v.Slice? && v.range.dir == DOWNTO)
              && (|ref.arrayIdx| == 0 ==> inner == base)
              && (|ref.arrayIdx| != 0 ==> inner.ArrayElement? && inner.prefix == base && |inner.indices| == |ref.arrayIdx|)
  {
  }

  /** A variable reference names the signal of its last name segment, or,
      for a frozen reference to a memory-annotated variable, the variable
      the annotation names. */
  lemma VarRefName(env: Env, ref: Hdl.Ref)
    requires |ref.name| > 0 && |ref.bits| == 0 && |ref.arrayIdx| == 0
    ensures Lower(env, Hdl.VarRef(ref)) ==
              if ref.frozen && ref.target.Some? && ref.target.value.memory.Some?
              then Ok(VariableName(env.vhdlName(ref.target.value.memory.value)))
              else Ok(SignalName(env.vhdlName(ref.name[|ref.name| - 1])))
  {
  }

  // ----- function calls -----

  /** What one provider answers for a call. */
  function Answer(env: Env, call: Hdl.Call, p: Provider): Result<Option<VExpr>> {
    match p
    case Builtin => BuiltinExpr(env, call)
    case Foreign(onExpr, _) => Ok(onExpr(call))
  }

  /** The first provider that answers (or throws) decides the call. */
  lemma {:induction false} ProvideFirstAnswer(env: Env, call: Hdl.Call, i: nat, k: nat)
    requires i <= k < |env.providers|
    requires forall j :: i <= j < k ==> Answer(env, call, env.providers[j]) == Ok(None)
    requires Answer(env, call, env.providers[k]) != Ok(None)
    ensures Provide(env, call, i) == Answer(env, call, env.providers[k])
    decreases k - i
  {
    if i < k {
      assert Answer(env, call, env.providers[i]) == Ok(None);
      ProvideFirstAnswer(env, call, i + 1, k);
    }
  }

  /** When no provider answers, the call yields nothing. */
  lemma {:induction false} ProvideNoAnswer(env: Env, call: Hdl.Call, i: nat)
    requires i <= |env.providers|
    requires forall j :: i <= j < |env.providers| ==> Answer(env, call, env.providers[j]) == Ok(None)
    ensures Provide(env, call, i) == Ok(None)
    decreases |env.providers| - i
  {
    if i < |env.providers| {
      assert Answer(env, call, env.providers[i]) == Ok(None);
      ProvideNoAnswer(env, call, i + 1);
    }
  }

  /** max, min and abs become a call of a function of the same name, log2ceil
      and log2floor a call of the matching helper, each with every parameter
      lowered in order; highZ is 'Z' without parameters and the aggregate
      `(1 to n => 'Z')` with one, its range lowered like any other; assertThat
      and every other name give nothing. */
  lemma BuiltinShapes(env: Env, call: Hdl.Call)
    requires |call.name| > 0
    ensures var name := call.name[|call.name| - 1];
            var r := BuiltinExpr(env, call);
            && (name in {"max", "min", "abs", "log2ceil", "log2floor"} ==>
                  (r.Ok? <==> LowerAll(env, call.params, 0).Ok?)
                  && (r.Ok? ==> r.value.Some? && r.value.value.FunctionCall?
                                && r.value.value.args == LowerAll(env, call.params, 0).value
                                && r.value.value.callee.Some?
                                && r.value.value.callee.value.fnName == name))
            && (name == "highZ" && |call.params| == 0 ==> r == Ok(Some(CharLit('Z'))))
            && (name == "highZ" && |call.params| > 0 ==>
                  var rng := LowerRange(env, HighZRange(call.params[0]), TO);
                  && (rng.Err? ==> r == Err(rng.fault))
                  && (rng.Ok? ==> r == Ok(Some(Aggregate([Assoc(CharLit('Z'), ChoiceRange(rng.value))]))))
                  && (rng.Ok? && KeepsLiterals(env) ==> rng.value.from == DecimalLit("1")))
            && (name !in {"max", "min", "abs", "log2ceil", "log2floor", "highZ"} ==> r == Ok(None))
  {
    if |call.params| > 0 {
      var rng := HighZRange(call.params[0]);
      assert LowerConstBound(env, rng, 1) == LowerBound(env, rng, Hdl.Lit(Hdl.IntLiteral(1)));
      if KeepsLiterals(env) {
        KeptLiteral(env, rng, 1);
      }
    }
  }
}
