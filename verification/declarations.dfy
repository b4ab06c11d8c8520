/** The non-recursive parts of lowering a variable declaration
    (VHDLStatementExtension._toVHDL(HDLVariableDeclaration) and
    handleVariable): choosing the VHDL type, declaring array types, computing
    default values and routing each variable by its direction.  The reset
    statements, which lower further statements, live with the statement
    lowering. */
module Declarations {
  import opened Wrappers
  import Hdl
  import opened Vhdl
  import opened VhdlContext
  import Strings
  import Literals
  import Expressions
  import opened Env

  // ----- names -----

  /** asIndex: the loop variable of the i-th dimension, the character
      'I' + i.  Java's char arithmetic wraps at 2^16; the code points Java can
      form there but a Dafny string cannot hold (the surrogate range) are
      reported as IndexOutOfBounds. */
  function AsIndex(i: nat): (r: Result<string>)
    ensures i < 0xD800 - 'I' as int ==> r.Ok? && |r.value| == 1 && r.value[0] as int == 'I' as int + i
    ensures r.Ok? ==> |r.value| == 1 && r.value[0] as int == ('I' as int + i) % 0x1_0000
  {
    var c := ('I' as int + i) % 0x1_0000;
    if 0xD800 <= c < 0xE000 then Err(IndexOutOfBounds) else Ok([c as char])
  }

  /** Different dimensions below the wrap-around get different loop
      variables. */
  lemma AsIndexInjective(i: nat, j: nat)
    requires i < 0xD800 - 'I' as int && j < 0xD800 - 'I' as int
    ensures AsIndex(i) == AsIndex(j) <==> i == j
  {
  }

  /** getArrayRefName: the name of the array type declared for a variable
      with dimensions; an external one is named after its full name (or the
      full name it had before instantiation), joined with '_'. */
  function ArrayRefName(env: Env, v: Hdl.Variable, external: bool): string {
    var base := if external then Strings.Join(v.origFullName.GetOr(v.fullName), '_') else v.name;
    env.vhdlName(env.unescape(base) + "_array")
  }

  /** Internal array types are named after the variable, external ones after
      the full name; either way the name is what getVHDLName makes of the
      unescaped base with the suffix `_array`. */
  lemma ArrayRefNameSource(env: Env, v: Hdl.Variable)
    ensures ArrayRefName(env, v, false) == env.vhdlName(env.unescape(v.name) + "_array")
    ensures v.origFullName.None? ==>
              ArrayRefName(env, v, true) == env.vhdlName(env.unescape(Strings.Join(v.fullName, '_')) + "_array")
    ensures v.origFullName.Some? ==>
              ArrayRefName(env, v, true) == env.vhdlName(env.unescape(Strings.Join(v.origFullName.value, '_')) + "_array")
  {
  }

  // ----- enumerations -----

  /** The VHDL name of an enumeration type. */
  function EnumTypeName(env: Env, enumName: string): string {
    env.vhdlName("$enum_" + enumName)
  }

  /** _toVHDL(HDLEnumDeclaration): the enumeration type, its literals named
      as `$<enum>_<literal>` after getVHDLName. */
  function EnumDeclType(env: Env, enumName: string, enums: seq<string>): (r: VType)
    ensures r.Enumeration? && r.enumName == EnumTypeName(env, enumName) && |r.literals| == |enums|
  {
    Enumeration(EnumTypeName(env, enumName),
                seq(|enums|, i requires 0 <= i < |enums| => env.vhdlName("$" + enumName + "_" + enums[i])))
  }

  /** The declared literals are exactly the names an enum reference lowers
      to, so every reference to a literal names one of the declared ones. */
  lemma EnumLiteralsAgree(env: Env, enumName: string, enums: seq<string>, i: nat)
    requires i < |enums|
    ensures Expressions.Lower(env, Hdl.EnumRef(Some(enumName), [enums[i]]))
            == Ok(SignalName(EnumDeclType(env, enumName, enums).literals[i]))
  {
  }

  // ----- the declared type -----

  /** The type chosen for a declaration, the reset value its variables use
      and the fill for nested array initialisers. */
  datatype Typing = Typing(vtype: VType, reset: Option<Hdl.Expr>, other: VExpr)

  /** `others => '0'`, the fill of array initialisers without an enum. */
  const ZeroFill: VExpr := Aggregate([Assoc(CharLit('0'), Others)])

  /** The primitive of a declaration, which the code reads as an HDLPrimitive. */
  function PrimitiveOfDecl(d: Hdl.Declaration): (r: Result<Hdl.HType>)
    ensures r.Ok? <==> d.primitive.Some? && d.primitive.value.Primitive?
    ensures r.Ok? ==> r.value == d.primitive.value
  {
    match d.primitive
    case None => Err(NullPointer)
    case Some(t) => if t.Primitive? then Ok(t) else Err(ClassCast)
  }

  /** The type named by a @VHDLType annotation, imported into the unit.  A
      value ending in `<>` is an unconstrained array type, constrained here
      to the primitive's width as `width-1 downto 0`. */
  function AnnotatedType(env: Env, d: Hdl.Declaration, tv: string, c: Ctx): (r: Result<(VType, Ctx)>)
    requires Valid(c)
    ensures r.Ok? ==> Valid(r.value.1) && r.value.1.stmts == c.stmts && DeclCount(r.value.1) == DeclCount(c)
  {
    if Strings.EndsWith(tv, "<>") then
      var value := Strings.Split(tv[..|tv| - 2], '.');
      var c1 := AddImport(c, value);
      var last :- Hdl.LastSegment(value);
      var p :- PrimitiveOfDecl(d);
      match p.width
      case None => Ok((Enumeration(last, []), c1))
      case Some(w) =>
        var rg :- Expressions.LowerRange(env, Hdl.Range(Some(Hdl.Subtract(w, 1)), Hdl.Lit(Hdl.IntLiteral(0))), DOWNTO);
        Ok((IndexSubtype(Enumeration(last, []), rg), c1))
    else
      var value := Strings.Split(tv, '.');
      var c1 := AddImport(c, value);
      var last :- Hdl.LastSegment(value);
      Ok((Enumeration(last, []), c1))
  }

  /** The reset of an enum-typed declaration: the literal at the index the
      reset value evaluates to (the first one when it does not evaluate),
      lowered to its VHDL name. */
  function EnumReset(env: Env, enumName: string, enums: seq<string>, reset: Option<Hdl.Expr>): (r: Result<Hdl.Expr>)
    ensures r.Ok? ==> r.value.EnumRef? && r.value.enumName == Some(enumName) && |r.value.literal| == 1
                      && r.value.literal[0] in enums
  {
    var ordinal := if reset.None? then None else env.enumOrdinal(reset.value);
    var idx := if ordinal.None? then 0 else Literals.IntValue(ordinal.value);
    if idx < 0 || idx >= |enums| then Err(IndexOutOfBounds)
    else Ok(Hdl.EnumRef(Some(enumName), [enums[idx]]))
  }

  /** The type of a declaration and the reset value its variables use.
      Nothing is declared when the declaration resolves to a type that is
      neither primitive nor an enumeration. */
  function DeclTyping(env: Env, d: Hdl.Declaration, c: Ctx): (r: Result<(Option<Typing>, Ctx)>)
    requires Valid(c)
    ensures r.Ok? ==> Valid(r.value.1) && r.value.1.stmts == c.stmts && DeclCount(r.value.1) == DeclCount(c)
  {
    var reset := if d.register.Some? then d.register.value.resetValue else None;
    match d.typeAnno
    case Some(tv) =>
      var (t, c1) :- AnnotatedType(env, d, tv, c);
      Ok((Some(Typing(t, reset, ZeroFill)), c1))
    case None =>
      match d.primitive
      case Some(p) =>
        if p.Primitive? then Ok((Some(Typing(CastsType(p.ptype, p.width), reset, ZeroFill)), c))
        else Err(ClassCast)
      case None =>
        match d.resolved
        case NoType => Err(Fault.Unresolved)
        case OtherType => Ok((None, c))
        case EnumDecl(name, enums) =>
          var enumReset :- EnumReset(env, name, enums, reset);
          var other :- Expressions.Lower(env, enumReset);
          var reset' := if reset.Some? && reset.value.ArrayInit? then reset else Some(enumReset);
          Ok((Some(Typing(Enumeration(EnumTypeName(env, name), []), reset', other)), c))
  }

  /** An enum-typed declaration uses the declared enumeration type, fills
      arrays with its reset literal, and resets to that literal unless the
      reset is an array initialiser. */
  lemma EnumTyping(env: Env, d: Hdl.Declaration, c: Ctx)
    requires Valid(c)
    requires d.typeAnno.None? && d.primitive.None? && d.resolved.EnumDecl?
    requires DeclTyping(env, d, c).Ok?
    ensures var t := DeclTyping(env, d, c).value.0;
            && t.Some?
            && t.value.vtype.Enumeration?
            && t.value.vtype.enumName == EnumDeclType(env, d.resolved.enumName, d.resolved.enums).enumName
            && t.value.other.SignalName?
            && t.value.other.sig in EnumDeclType(env, d.resolved.enumName, d.resolved.enums).literals
  {
    var name, enums := d.resolved.enumName, d.resolved.enums;
    var reset := if d.register.Some? then d.register.value.resetValue else None;
    var e := EnumReset(env, name, enums, reset).value;
    var k :| 0 <= k < |enums| && enums[k] == e.literal[0];
    EnumLiteralsAgree(env, name, enums, k);
  }

  // ----- array types -----

  /** The ranges `0 to dim-1` of a variable's dimensions, in order. */
  function DimRanges(env: Env, dims: seq<Hdl.Expr>, from: nat): (r: Result<seq<VRange>>)
    requires from <= |dims|
    ensures r.Ok? ==> |r.value| == |dims| - from
    ensures r.Ok? ==> forall j :: 0 <= j < |r.value| ==> r.value[j].dir == TO
    decreases |dims| - from
  {
    if from == |dims| then Ok([])
    else
      var rg :- Expressions.LowerRange(env, Hdl.Range(Some(Hdl.Lit(Hdl.IntLiteral(0))), Hdl.Subtract(dims[from], 1)), TO);
      var rest :- DimRanges(env, dims, from + 1);
      Ok([rg] + rest)
  }

  /** Each range lowers the literal 0 as its start, so a dimension of size n
      is declared as `0 to n-1`, as long as simplifyWidth keeps literals. */
  lemma {:induction false} DimRangesStartAtZero(env: Env, dims: seq<Hdl.Expr>, from: nat)
    requires Expressions.KeepsLiterals(env)
    requires from <= |dims|
    ensures DimRanges(env, dims, from).Ok? ==>
              forall j :: 0 <= j < |DimRanges(env, dims, from).value| ==> DimRanges(env, dims, from).value[j].from == DecimalLit("0")
    decreases |dims| - from
  {
    if from < |dims| {
      var rng := Hdl.Range(Some(Hdl.Lit(Hdl.IntLiteral(0))), Hdl.Subtract(dims[from], 1));
      Expressions.KeptLiteral(env, rng, 0);
      assert Expressions.LowerConstBound(env, rng, 0) == Expressions.LowerBound(env, rng, Hdl.Lit(Hdl.IntLiteral(0)));
      assert Strings.IntToString(0) == "0";
      DimRangesStartAtZero(env, dims, from + 1);
    }
  }

  /** A variable with dimensions gets an array type of its own, declared in
      the package when the declaration is external and in the architecture
      otherwise; the variable then has that type. */
  function ArrayType(env: Env, d: Hdl.Declaration, v: Hdl.Variable, t: VType, c: Ctx): (r: Result<(VType, Ctx)>)
    ensures |v.dims| == 0 ==> r == Ok((t, c))
    ensures |v.dims| != 0 && r.Ok? ==>
              && DimRanges(env, v.dims, 0).Ok?
              && r.value.0 == ConstrainedArray(ArrayRefName(env, v, d.external), t, DimRanges(env, v.dims, 0).value)
              && r.value.1 == AddTypeDeclaration(c, r.value.0, d.external)
  {
    if |v.dims| == 0 then Ok((t, c))
    else
      var ranges :- DimRanges(env, v.dims, 0);
      var arr := ConstrainedArray(ArrayRefName(env, v, d.external), t, ranges);
      Ok((arr, AddTypeDeclaration(c, arr, d.external)))
  }

  // ----- defaults and routing -----

  /** `(others => e)` nested once per dimension. */
  function WrapOthers(e: VExpr, n: nat): (r: VExpr)
    ensures n > 0 ==> r.Aggregate? && |r.assocs| == 1 && r.assocs[0].choice == Others
  {
    if n == 0 then e else Aggregate([Assoc(WrapOthers(e, n - 1), Others)])
  }

  /** Peels n `others` aggregates. */
  function UnwrapOthers(e: VExpr, n: nat): Option<VExpr> {
    if n == 0 then Some(e)
    else if e.Aggregate? && |e.assocs| == 1 && e.assocs[0].choice == Others then UnwrapOthers(e.assocs[0].value, n - 1)
    else None
  }

  lemma {:induction false} UnwrapWrapOthers(e: VExpr, n: nat)
    ensures UnwrapOthers(WrapOthers(e, n), n) == Some(e)
  {
    if n > 0 {
      UnwrapWrapOthers(e, n - 1);
    }
  }

  /** A variable without an explicit reset (or a memory) takes its reset as
      the signal's initial value: an array initialiser as an aggregate, any
      other value repeated through every dimension. */
  function SignalDefault(env: Env, v: Hdl.Variable, typing: Typing): (r: Result<Option<VExpr>>)
    ensures !(v.noExplicitReset || v.memory.Some?) || typing.reset.None? ==> r == Ok(None)
    ensures r.Ok? && r.value.Some? && !typing.reset.value.ArrayInit? ==>
              Expressions.Lower(env, typing.reset.value).Ok? &&
              UnwrapOthers(r.value.value, |v.dims|) == Some(Expressions.Lower(env, typing.reset.value).value)
  {
    if !(v.noExplicitReset || v.memory.Some?) then Ok(None)
    else match typing.reset
      case None => Ok(None)
      case Some(rv) =>
        if rv.ArrayInit? then
          var a :- Expressions.ToArray(env, rv, typing.other);
          Ok(Some(a))
        else
          var a :- Expressions.Lower(env, rv);
          UnwrapWrapOthers(a, |v.dims|);
          Ok(Some(WrapOthers(a, |v.dims|)))
  }

  /** The number of entity and architecture declarations of a context. */
  function DeclCount(c: Ctx): nat {
    |c.decls.ports| + |c.decls.internals| + |c.decls.constants| + |c.decls.constantsPkg| + |c.decls.generics|
  }

  function ModeOf(dir: Hdl.Direction): Option<Mode> {
    match dir
    case IN => Some(ModeIn)
    case OUT => Some(ModeOut)
    case INOUT => Some(ModeInout)
    case _ => None
  }

  function DirectionOf(m: Mode): Hdl.Direction {
    match m
    case ModeIn => Hdl.IN
    case ModeOut => Hdl.OUT
    case ModeInout => Hdl.INOUT
  }

  /** The switch of handleVariable on the declaration's direction: ports keep
      their direction as mode, internals become signals or shared variables,
      hidden and constant variables become constants (of the package when
      exported), parameters become generics. */
  function Route(c: Ctx, dir: Hdl.Direction, v: Hdl.Variable, s: Signal, k: Constant): (r: Ctx)
    requires s.mode.None?
    ensures r.stmts == c.stmts && r.decls.components == c.decls.components
    ensures DeclCount(r) == DeclCount(c) + 1
    ensures ModeOf(dir).Some? ==> r.decls.ports == c.decls.ports + [s.(mode := ModeOf(dir))]
    ensures dir == Hdl.INTERNAL && v.sharedVar ==> r.decls.internals == c.decls.internals + [SharedVariable(s.sigName, s.sigType, s.sigDefault)]
    ensures dir == Hdl.INTERNAL && !v.sharedVar ==> r.decls.internals == c.decls.internals + [SignalDecl(s)]
    ensures (dir == Hdl.HIDDEN || dir == Hdl.CONSTANT) && v.exported ==> r.decls.constantsPkg == c.decls.constantsPkg + [k]
    ensures (dir == Hdl.HIDDEN || dir == Hdl.CONSTANT) && !v.exported ==> r.decls.constants == c.decls.constants + [k]
    ensures dir == Hdl.PARAMETER ==> r.decls.generics == c.decls.generics + [k]
  {
    match dir
    case IN => AddPort(c, s.(mode := Some(ModeIn)))
    case OUT => AddPort(c, s.(mode := Some(ModeOut)))
    case INOUT => AddPort(c, s.(mode := Some(ModeInout)))
    case INTERNAL =>
      if v.sharedVar then AddInternal(c, SharedVariable(s.sigName, s.sigType, s.sigDefault))
      else AddInternal(c, SignalDecl(s))
    case HIDDEN => if v.exported then AddConstantPkg(c, k) else AddConstant(c, k)
    case CONSTANT => if v.exported then AddConstantPkg(c, k) else AddConstant(c, k)
    case PARAMETER => AddGeneric(c, k)
  }

  /** A port's mode gives its direction back. */
  lemma ModeRoundTrip(dir: Hdl.Direction, m: Mode)
    ensures ModeOf(DirectionOf(m)) == Some(m)
    ensures ModeOf(dir).Some? ==> DirectionOf(ModeOf(dir).value) == dir
  {
  }

  /** The last part of handleVariable: the constant's default is the lowered
      default value, the signal's default its implicit reset, and the
      variable is routed by direction.  The signal carries the variable's
      name; the constant the name it had before instantiation, if any. */
  function Declare(env: Env, d: Hdl.Declaration, v: Hdl.Variable, varType: VType, typing: Typing, c: Ctx): (r: Result<Ctx>)
    ensures r.Ok? ==> r.value.stmts == c.stmts && DeclCount(r.value) == DeclCount(c) + 1
    ensures r.Ok? ==> r.value.decls.components == c.decls.components
  {
    var constDefault :-
      match v.defaultValue
      case None => Ok(None)
      case Some(dv) =>
        var a :- Expressions.ToArray(env, dv, typing.other);
        Ok(Some(a));
    var sigDefault :- SignalDefault(env, v, typing);
    var s := Signal(v.name, varType, None, sigDefault);
    var k := Constant(v.origName.GetOr(v.name), varType, constDefault);
    Ok(Route(c, d.direction, v, s, k))
  }
}
