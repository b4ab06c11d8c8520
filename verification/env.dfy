/** The helpers the lowering calls but does not define, gathered into one
    value that every lowering function receives.  Each is uninterpreted: the
    model assumes nothing about them beyond their types, so every property
    proved holds whatever they compute. */
module Env {
  import opened Wrappers
  import Hdl
  import Vhdl
  import VhdlContext

  /** A context as a code-function provider hands it back: well formed and
      consistent, like every context the lowering builds. */
  type Fragment = c: VhdlContext.Ctx | VhdlContext.Valid(c) && VhdlContext.Consistent(c) witness VhdlContext.Empty()

  /** One registered IVHDLCodeFunctionProvider.  `Builtin` is the translator's
      own VHDLFunctions; any other provider answers a call with a VHDL
      expression or fragment, or declines with nothing. */
  datatype Provider =
    | Builtin
    | Foreign(onExpr: Hdl.Call -> Option<Vhdl.VExpr>,
              onStmt: (Hdl.Call, int) -> Option<Fragment>)

  datatype Env = Env(
    normalize: Hdl.RegisterConfig -> Hdl.RegisterConfig,  // HDLRegisterConfig.normalize
    valueOf: Hdl.Expr -> Option<int>,                     // ConstantEvaluate.valueOf
    enumOrdinal: Hdl.Expr -> Option<int>,                 // ConstantEvaluate.valueOf with enumAsInt set
    vhdlName: string -> string,                           // VHDLUtils.getVHDLName
    unescape: string -> string,                           // VHDLUtils.unescapeVHDLName
    mapName: (Hdl.QName, Hdl.QName) -> string,            // VHDLUtils.mapName of an interface reference
    isKeyword: string -> bool,                            // VHDLUtils.isKeyword
    typeOf: Hdl.Expr -> Option<Hdl.HType>,                // TypeExtension.typeOf
    castType: Hdl.PrimitiveType -> Option<Vhdl.VType>,    // VHDLCastsLibrary.getType
    resizeType: (Hdl.PrimitiveType, Hdl.Expr) -> Hdl.PrimitiveType, // the new type of VHDLCastsLibrary.getResize
    simplifyWidth: (Hdl.Range, Hdl.Expr) -> Option<int>,  // HDLPrimitives.simplifyWidth of a range bound, constant and
                                                          // parameter references kept: the constant it folds to, if any
    castsUse: string,                                     // the name in VHDLCastsLibrary.USE_CLAUSE
    providers: seq<Provider>)                             // HDLCore.getAllImplementations, in its order
}
