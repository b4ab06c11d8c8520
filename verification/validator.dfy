/** The name checks the VHDL back end adds to PSHDL validation: VHDL keywords
    or extended identifiers used as PSHDL names, and VHDL keywords used as
    type names. */
module Validator {
  import opened Wrappers
  import Hdl
  import Strings
  import opened Env

  datatype Severity = WARNING | ERROR

  /** VHDLErrorCode. */
  datatype ErrorCode = KEYWORD_NAME | KEYWORD_TYPE | PARSE_ERROR

  /** A problem's code: one of this validator's own, or a code some other
      validator defines. */
  datatype Code = VhdlCode(c: ErrorCode) | ForeignCode

  /** The severity each code carries: only a renamed variable is a warning,
      since escaping keeps the output working. */
  function SeverityOf(c: ErrorCode): (s: Severity)
    ensures s == WARNING <==> c == KEYWORD_NAME
  {
    match c
    case KEYWORD_NAME => WARNING
    case KEYWORD_TYPE => ERROR
    case PARSE_ERROR => ERROR
  }

  /** An HDLAdvise: what went wrong, what the translator does about it, and
      what the user should do. */
  datatype Advise = Advise(message: string, explanation: string, solution: string)

  /** The message of the KEYWORD_NAME advice. */
  const NameMessage: string := "The used name is a keyword or an extended identifier in VHDL"

  /** The message of the KEYWORD_TYPE advice. */
  const TypeMessage: string := "The used type name is a keyword in VHDL"

  /** The explanations and solutions of the two advices. */
  const NameExplanation: string := "Keywords will be escaped using the extended identifier convention, this may look strange, but is fully working"
  const NameSolution: string := "Don't use a VHDL keyword or don't end with an underscore as identifier"
  const TypeExplanation: string := "Keywords are not supported for type names"
  const TypeSolution: string := "Don't use a VHDL keyword as identifier"

  /** advise: a text for the two keyword codes, nothing for a parse error or
      for a code of another validator. */
  function AdviseFor(code: Code): (r: Option<Advise>)
    ensures r.Some? <==> code.VhdlCode? && code.c != PARSE_ERROR
    ensures r.Some? ==> (r.value.message == TypeMessage <==> code.c == KEYWORD_TYPE)
  {
    match code
    case VhdlCode(KEYWORD_NAME) =>
      Some(Advise(NameMessage, NameExplanation, NameSolution))
    case VhdlCode(KEYWORD_TYPE) =>
      Some(Advise(TypeMessage, TypeExplanation, TypeSolution))
    case _ => None
  }

  /** The kinds of node the validator inspects. */
  datatype NodeKind = VariableNode | UnitNode | InterfaceNode | EnumNode

  /** A problem raised against the `index`-th node of its kind, in the order
      the package lists those nodes. */
  datatype Problem = Problem(code: ErrorCode, kind: NodeKind, index: nat)

  /** What checkNames reads from a package: the names of all its variables,
      and the full names of all its units, interfaces and enums. */
  datatype Package = Package(
    variables: seq<string>,
    units: seq<Hdl.QName>,
    interfaces: seq<Hdl.QName>,
    enums: seq<Hdl.QName>)

  /** A variable needs a new name in VHDL exactly when the translator's
      renaming changes it. */
  predicate Renamed(env: Env, name: string) {
    env.vhdlName(name) != name
  }

  /** A type's name is its full name joined with underscores; it is refused
      when that is a VHDL keyword. */
  predicate KeywordTyped(env: Env, fullName: Hdl.QName) {
    env.isKeyword(Strings.Join(fullName, '_'))
  }

  /** One KEYWORD_NAME warning per renamed variable, in order. */
  function NameProblems(env: Env, names: seq<string>, from: nat): (r: seq<Problem>)
    requires from <= |names|
    ensures forall p :: p in r <==> p.code == KEYWORD_NAME && p.kind == VariableNode
                                    && from <= p.index < |names| && Renamed(env, names[p.index])
    decreases |names| - from
  {
    if from == |names| then []
    else
      var rest := NameProblems(env, names, from + 1);
      if Renamed(env, names[from]) then [Problem(KEYWORD_NAME, VariableNode, from)] + rest else rest
  }

  /** One KEYWORD_TYPE error per keyword-named type of the given kind, in
      order. */
  function TypeProblems(env: Env, kind: NodeKind, names: seq<Hdl.QName>, from: nat): (r: seq<Problem>)
    requires from <= |names|
    ensures forall p :: p in r <==> p.code == KEYWORD_TYPE && p.kind == kind
                                    && from <= p.index < |names| && KeywordTyped(env, names[p.index])
    decreases |names| - from
  {
    if from == |names| then []
    else
      var rest := TypeProblems(env, kind, names, from + 1);
      if KeywordTyped(env, names[from]) then [Problem(KEYWORD_TYPE, kind, from)] + rest else rest
  }

  /** checkNames: variables first, then units, interfaces and enums. */
  function CheckNames(env: Env, pkg: Package): (r: seq<Problem>)
    ensures forall i :: 0 <= i < |pkg.variables| ==>
              (Problem(KEYWORD_NAME, VariableNode, i) in r <==> Renamed(env, pkg.variables[i]))
    ensures forall i :: 0 <= i < |pkg.units| ==>
              (Problem(KEYWORD_TYPE, UnitNode, i) in r <==> KeywordTyped(env, pkg.units[i]))
    ensures forall i :: 0 <= i < |pkg.interfaces| ==>
              (Problem(KEYWORD_TYPE, InterfaceNode, i) in r <==> KeywordTyped(env, pkg.interfaces[i]))
    ensures forall i :: 0 <= i < |pkg.enums| ==>
              (Problem(KEYWORD_TYPE, EnumNode, i) in r <==> KeywordTyped(env, pkg.enums[i]))
    ensures forall p :: p in r ==> p.code != PARSE_ERROR
    ensures forall p :: p in r ==> (p.code == KEYWORD_NAME <==> p.kind == VariableNode)
  {
    NameProblems(env, pkg.variables, 0)
    + TypeProblems(env, UnitNode, pkg.units, 0)
    + TypeProblems(env, InterfaceNode, pkg.interfaces, 0)
    + TypeProblems(env, EnumNode, pkg.enums, 0)
  }

  /** check: adds the name problems to those already collected and always
      reports success, so a keyword never stops the compilation here. */
  function Check(env: Env, pkg: Package, problems: set<Problem>): (r: (bool, set<Problem>))
    ensures r.0
    ensures problems <= r.1
    ensures forall p :: p in r.1 - problems ==> p in CheckNames(env, pkg)
    ensures forall p :: p in CheckNames(env, pkg) ==> p in r.1
  {
    var found := CheckNames(env, pkg);
    (true, problems + set p | p in found)
  }

  /** Checking a package twice adds nothing the first check did not. */
  lemma CheckIdempotent(env: Env, pkg: Package, problems: set<Problem>)
    ensures Check(env, pkg, Check(env, pkg, problems).1).1 == Check(env, pkg, problems).1
  {
    var once := Check(env, pkg, problems).1;
    var twice := Check(env, pkg, once).1;
    assert twice <= once;
  }

  /** Every problem raised is one a variable or a type name deserves, and
      its severity follows from the kind of node: only variables warn. */
  lemma ProblemSeverity(env: Env, pkg: Package, p: Problem)
    requires p in CheckNames(env, pkg)
    ensures SeverityOf(p.code) == WARNING <==> p.kind == VariableNode
    ensures AdviseFor(VhdlCode(p.code)).Some?
  {
  }
}
