/** The two helper packages the generated code uses: `ShiftOps`, one shift
    function per operator and mappable primitive type, and `Types`, the
    `ternaryOp` overloads and the log2 helpers. */
module Libraries {
  import opened Wrappers
  import Hdl
  import Strings
  import opened Vhdl

  // ----- ShiftOps -----

  /** The operator in lower case followed by the type's name with only its
      first letter kept upper case: `sll` and BITVECTOR give `sllBitvector`. */
  function ShiftFunctionName(op: Hdl.ShiftOpType, t: Hdl.PrimitiveType): string {
    var tn := Hdl.PrimitiveName(t);
    Strings.ToLower(Hdl.ShiftName(op)) + [tn[0]] + Strings.ToLower(tn[1..])
  }

  predicate UpperName(s: string) {
    forall i :: 0 <= i < |s| ==> 'A' <= s[i] <= 'Z' || s[i] == '_'
  }

  lemma {:induction false} ToLowerInjective(s: string, t: string)
    requires UpperName(s) && UpperName(t) && Strings.ToLower(s) == Strings.ToLower(t)
    ensures s == t
  {
    assert |s| == |t|;
    forall i | 0 <= i < |s| ensures s[i] == t[i] {
      assert Strings.LowerChar(s[i]) == Strings.ToLower(s)[i] == Strings.ToLower(t)[i] == Strings.LowerChar(t[i]);
    }
  }

  lemma NamesUpper(op: Hdl.ShiftOpType, t: Hdl.PrimitiveType)
    ensures UpperName(Hdl.ShiftName(op)) && UpperName(Hdl.PrimitiveName(t))
    ensures |Hdl.ShiftName(op)| == 3
  {
  }

  lemma NamesDistinct(op: Hdl.ShiftOpType, t: Hdl.PrimitiveType, op2: Hdl.ShiftOpType, t2: Hdl.PrimitiveType)
    ensures Hdl.ShiftName(op) == Hdl.ShiftName(op2) ==> op == op2
    ensures Hdl.PrimitiveName(t) == Hdl.PrimitiveName(t2) ==> t == t2
  {
  }

  /** The name scheme loses nothing: operator and type name can be read back. */
  lemma {:induction false} NameSchemeInjective(a: string, tn: string, b: string, tn2: string)
    requires |a| == |b| == 3 && |tn| > 0 && |tn2| > 0
    requires UpperName(a) && UpperName(b) && UpperName(tn) && UpperName(tn2)
    requires Strings.ToLower(a) + [tn[0]] + Strings.ToLower(tn[1..]) == Strings.ToLower(b) + [tn2[0]] + Strings.ToLower(tn2[1..])
    ensures a == b && tn == tn2
  {
    var n := Strings.ToLower(a) + [tn[0]] + Strings.ToLower(tn[1..]);
    var n2 := Strings.ToLower(b) + [tn2[0]] + Strings.ToLower(tn2[1..]);
    assert Strings.ToLower(a) == n[..3] == n2[..3] == Strings.ToLower(b);
    ToLowerInjective(a, b);
    assert tn[0] == n[3] == n2[3] == tn2[0];
    assert Strings.ToLower(tn[1..]) == n[4..] == n2[4..] == Strings.ToLower(tn2[1..]);
    ToLowerInjective(tn[1..], tn2[1..]);
    assert tn == [tn[0]] + tn[1..] && tn2 == [tn2[0]] + tn2[1..];
  }

  /** Different operator/type pairs get different function names, so looking
      a name up in the package finds the function of that very pair. */
  lemma ShiftFunctionNameInjective(op: Hdl.ShiftOpType, t: Hdl.PrimitiveType, op2: Hdl.ShiftOpType, t2: Hdl.PrimitiveType)
    requires ShiftFunctionName(op, t) == ShiftFunctionName(op2, t2)
    ensures op == op2 && t == t2
  {
    NamesUpper(op, t);
    NamesUpper(op2, t2);
    NameSchemeInjective(Hdl.ShiftName(op), Hdl.PrimitiveName(t), Hdl.ShiftName(op2), Hdl.PrimitiveName(t2));
    NamesDistinct(op, t, op2, t2);
  }

  /** A type the package declares a shift function for: not an "any" type,
      and one the casts library maps to a VHDL type. */
  predicate ShiftTyped(castType: Hdl.PrimitiveType -> Option<VType>, t: Hdl.PrimitiveType) {
    !Hdl.IsAny(t) && castType(t).Some?
  }

  /** The declaration `function <name>(arg: T; s: NATURAL) return T`. */
  function ShiftDecl(op: Hdl.ShiftOpType, t: Hdl.PrimitiveType, vt: VType): FunctionDecl {
    FunctionDecl(ShiftFunctionName(op, t), vt, [Param("arg", vt), Param("s", Natural)])
  }

  /** The declarations for one operator over the given types, in order. */
  function ShiftDeclsFor(castType: Hdl.PrimitiveType -> Option<VType>, op: Hdl.ShiftOpType, ts: seq<Hdl.PrimitiveType>): seq<FunctionDecl> {
    if |ts| == 0 then []
    else
      (if ShiftTyped(castType, ts[0]) then [ShiftDecl(op, ts[0], castType(ts[0]).value)] else [])
      + ShiftDeclsFor(castType, op, ts[1..])
  }

  function ShiftDecls(castType: Hdl.PrimitiveType -> Option<VType>, ops: seq<Hdl.ShiftOpType>): seq<FunctionDecl> {
    if |ops| == 0 then [] else ShiftDeclsFor(castType, ops[0], Hdl.AllPrimitives) + ShiftDecls(castType, ops[1..])
  }

  /** The declarations of the ShiftOps package: every operator, then every
      primitive type, both in declaration order. */
  function ShiftPackage(castType: Hdl.PrimitiveType -> Option<VType>): seq<FunctionDecl> {
    ShiftDecls(castType, Hdl.AllShiftOps)
  }

  /** Scope.resolve: the first declaration of that name, or nothing. */
  function Resolve(decls: seq<FunctionDecl>, name: string): (r: Option<FunctionDecl>)
    ensures r.Some? ==> r.value in decls && r.value.fnName == name
    ensures r.None? ==> forall d :: d in decls ==> d.fnName != name
  {
    if |decls| == 0 then None
    else if decls[0].fnName == name then Some(decls[0])
    else Resolve(decls[1..], name)
  }

  lemma {:induction false} ShiftDeclsForContains(castType: Hdl.PrimitiveType -> Option<VType>, op: Hdl.ShiftOpType,
                                                   ts: seq<Hdl.PrimitiveType>, t: Hdl.PrimitiveType)
    requires t in ts && ShiftTyped(castType, t)
    ensures ShiftDecl(op, t, castType(t).value) in ShiftDeclsFor(castType, op, ts)
  {
    if ts[0] != t {
      ShiftDeclsForContains(castType, op, ts[1..], t);
    }
  }

  lemma {:induction false} ShiftDeclsContains(castType: Hdl.PrimitiveType -> Option<VType>, ops: seq<Hdl.ShiftOpType>,
                                                op: Hdl.ShiftOpType, t: Hdl.PrimitiveType)
    requires op in ops && ShiftTyped(castType, t)
    ensures ShiftDecl(op, t, castType(t).value) in ShiftDecls(castType, ops)
  {
    if ops[0] == op {
      ShiftDeclsForContains(castType, op, Hdl.AllPrimitives, t);
    } else {
      ShiftDeclsContains(castType, ops[1..], op, t);
    }
  }

  /** VHDLShiftLibrary.shift: a call, with arguments (value, amount), of the
      package function the operator and type name; the callee is absent when
      the package has no such function. */
  function Shift(castType: Hdl.PrimitiveType -> Option<VType>, value: VExpr, amount: VExpr,
                 t: Hdl.PrimitiveType, op: Hdl.ShiftOpType): (r: VExpr)
    ensures r.FunctionCall? && r.args == [value, amount]
  {
    FunctionCall(Resolve(ShiftPackage(castType), ShiftFunctionName(op, t)), [value, amount])
  }

  /** Looking up the name of a pair among the declarations for some
      operators finds that pair's declaration, when it was declared. */
  lemma ResolveShiftName(castType: Hdl.PrimitiveType -> Option<VType>, ops: seq<Hdl.ShiftOpType>,
                         op: Hdl.ShiftOpType, t: Hdl.PrimitiveType)
    requires op in ops
    ensures Resolve(ShiftDecls(castType, ops), ShiftFunctionName(op, t))
            == if ShiftTyped(castType, t) then Some(ShiftDecl(op, t, castType(t).value)) else None
  {
    var r := Resolve(ShiftDecls(castType, ops), ShiftFunctionName(op, t));
    ShiftDeclsShape(castType, ops);
    if r.Some? {
      var op', t' :| ShiftTyped(castType, t') && r.value == ShiftDecl(op', t', castType(t').value);
      ShiftFunctionNameInjective(op', t', op, t);
    } else if ShiftTyped(castType, t) {
      ShiftDeclsContains(castType, ops, op, t);
    }
  }

  /** A shift calls exactly the package function for its operator and type,
      `(arg: T; s: NATURAL) return T`, and that function exists exactly for
      the types that are not "any" types and have a VHDL mapping. */
  lemma ShiftCallsItsFunction(castType: Hdl.PrimitiveType -> Option<VType>, value: VExpr, amount: VExpr,
                              t: Hdl.PrimitiveType, op: Hdl.ShiftOpType)
    ensures Shift(castType, value, amount, t, op).callee
            == if ShiftTyped(castType, t) then Some(ShiftDecl(op, t, castType(t).value)) else None
  {
    ResolveShiftName(castType, Hdl.AllShiftOps, op, t);
  }

  lemma {:induction false} ShiftDeclsForShape(castType: Hdl.PrimitiveType -> Option<VType>, op: Hdl.ShiftOpType, ts: seq<Hdl.PrimitiveType>)
    ensures forall d :: d in ShiftDeclsFor(castType, op, ts) ==>
              exists t :: t in ts && ShiftTyped(castType, t) && d == ShiftDecl(op, t, castType(t).value)
  {
    if |ts| > 0 {
      ShiftDeclsForShape(castType, op, ts[1..]);
    }
  }

  lemma {:induction false} ShiftDeclsShape(castType: Hdl.PrimitiveType -> Option<VType>, ops: seq<Hdl.ShiftOpType>)
    ensures forall d :: d in ShiftDecls(castType, ops) ==>
              exists op, t :: ShiftTyped(castType, t) && d == ShiftDecl(op, t, castType(t).value)
  {
    if |ops| > 0 {
      ShiftDeclsForShape(castType, ops[0], Hdl.AllPrimitives);
      ShiftDeclsShape(castType, ops[1..]);
    }
  }

  /** Every function of the ShiftOps package takes (`arg`: T, `s`: NATURAL)
      and returns T, for a type T the casts library maps a non-"any"
      primitive type to. */
  lemma ShiftPackageSignatures(castType: Hdl.PrimitiveType -> Option<VType>)
    ensures forall d :: d in ShiftPackage(castType) ==>
              && d.params == [Param("arg", d.returnType), Param("s", Natural)]
              && exists t :: ShiftTyped(castType, t) && d.returnType == castType(t).value
  {
    ShiftDeclsShape(castType, Hdl.AllShiftOps);
  }

  // ----- Types -----

  /** `function ternaryOp(condition: BOOLEAN; thenValue: T; elseValue: T) return T`. */
  function TernaryOp(t: VType): FunctionDecl {
    FunctionDecl("ternaryOp", t, [Param("condition", Boolean), Param("thenValue", t), Param("elseValue", t)])
  }

  /** The types of the ternaryOp overloads, in the order the package declares them. */
  const TernaryTypes: seq<VType> := [Integer, StdLogic, StdLogicVector, Unsigned, Signed]

  /** The declarations of the Types package: the ternaryOp overloads only. */
  const TypesPackage: seq<FunctionDecl> :=
    [TernaryOp(Integer), TernaryOp(StdLogic), TernaryOp(StdLogicVector), TernaryOp(Unsigned), TernaryOp(Signed)]

  /** TERNARY_SLV, the overload every ternary expression calls. */
  const TernarySlv: FunctionDecl := TernaryOp(StdLogicVector)

  const Log2Ceil: FunctionDecl := FunctionDecl("log2ceil", Integer, [Param("num", Integer)])
  const Log2Floor: FunctionDecl := FunctionDecl("log2floor", Integer, [Param("num", Integer)])

  /** The Types package holds one ternaryOp per listed type, in that order,
      each taking a boolean condition and two values of the type it returns;
      the log2 helpers are not part of it. */
  lemma TypesPackageShape()
    ensures |TypesPackage| == |TernaryTypes| == 5
    ensures forall i :: 0 <= i < 5 ==>
              && TypesPackage[i].fnName == "ternaryOp"
              && TypesPackage[i].returnType == TernaryTypes[i]
              && TypesPackage[i].params == [Param("condition", Boolean), Param("thenValue", TernaryTypes[i]), Param("elseValue", TernaryTypes[i])]
    ensures Log2Ceil !in TypesPackage && Log2Floor !in TypesPackage
    ensures TernarySlv in TypesPackage && TernarySlv.returnType == StdLogicVector
  {
  }
}
