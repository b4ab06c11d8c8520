/** The VHDL importer's conversion of port and generic declarations into PSHDL
    variable declarations: the table from VHDL type names to PSHDL primitive
    types, the width of a range, array dimensions, range annotations and the
    conversion of VHDL default-value expressions.

    The VHDL parser, the file handling and the library scopes are not part
    of this model; a VHDL expression or subtype arrives as an already parsed
    tree, and the two services the importer calls, constant evaluation and
    the lookup of a type's full name in the library scopes, are parameters. */
module Importer {
  import opened Wrappers
  import Hdl
  import Strings

  // ----- the VHDL side -----

  datatype RangeDirection = TO | DOWNTO

  /** The kinds of binary VHDL expression; `OtherKind` stands for the logical,
      relational, shift and concatenation kinds the importer does not map. */
  datatype ExpressionKind = PLUS | MINUS | MULTIPLY | DIVIDE | MOD | POW | OtherKind

  /** A parsed VHDL expression.  A bit-string or character literal carries
      its text as the parser prints it, with its prefix and quotes (`X"1F"`,
      `B"0101"`); a decimal literal carries its digits. */
  datatype Source =
    | HexLiteral(text: string)
    | BinaryLiteral(text: string)
    | CharacterLiteral(text: string)
    | DecimalLiteral(digits: string)
    | StringLiteral(chars: string)
    | BinaryExpression(kind: ExpressionKind, left: Source, right: Source)
    | Constant(defaultValue: Option<Source>)   // a reference to a declared constant
    | BooleanFalse
    | BooleanTrue
    | Parentheses(inner: Source)
    | SignalRef(identifier: string)
    | OtherSource

  datatype Range = Range(from: Source, direction: RangeDirection, to: Source)

  /** A discrete range: a `Range`, or another kind (a subtype name, say) that
      the importer casts to `Range` and so cannot handle. */
  datatype DiscreteRange = IndexRange(range: Range) | OtherDiscrete

  /** A subtype indication.  `Named` is one of the predefined types of the
      IEEE libraries, compared by identity in the importer. */
  datatype Subtype =
    | Named(typeName: string)
    | IndexSubtype(base: Subtype, ranges: seq<DiscreteRange>)
    | RangeSubtype(base: Subtype, rangeOf: Option<Range>)   // None: a range given by an attribute
    | ConstrainedArray(identifier: string, indexRanges: seq<DiscreteRange>, element: Subtype)
    | UnconstrainedArray(identifier: string, element: Subtype)
    | EnumerationType(identifier: string)

  // ----- the PSHDL side -----

  /** The annotations an imported declaration can carry: `@range` with its
      two bounds (printed as `first;second`) and `@VHDLType` with the full
      name of the array type (null when the scopes do not know it). */
  datatype Annotation =
    | RangeAnnotation(first: Hdl.Expr, second: Hdl.Expr)
    | VHDLTypeAnnotation(typeName: Option<string>)

  /** The HDLVariableDeclaration the importer builds: one variable of a
      primitive type, with its dimensions, optional default value and the
      warning comment recorded when a default value could not be converted. */
  datatype Imported = Imported(
    direction: Hdl.Direction,
    ptype: Hdl.PrimitiveType,
    width: Option<Hdl.Expr>,
    name: string,
    dimensions: seq<Hdl.Expr>,
    defaultValue: Option<Hdl.Expr>,
    conversionFailed: bool,
    annotations: seq<Annotation>)

  /** The services the importer calls: ConstantEvaluate.valueOf and the
      search of the library scopes for a type's package (getFullName). */
  datatype Services = Services(
    valueOf: Hdl.Expr -> Option<int>,
    fullName: string -> Option<string>)

  /** The two readings of the importer: as the Java code is written, and with
      its two slips corrected, binary literals read in base 2 and
      std_ulogic_vector asked for in the vector test of the type table. */
  datatype Variant = AsWritten | Corrected

  /** The base a variant reads the digits of a `B"…"` literal in. */
  function BinaryRadix(v: Variant): (r: nat)
    ensures r == 2 || r == 16
  {
    if v == Corrected then 2 else 16
  }

  // ----- values -----

  /** The value of an integer expression built from literals, addition,
      subtraction and multiplication; nothing for anything else. */
  function Value(e: Hdl.Expr): Option<int> {
    match e
    case Lit(l) => l.value
    case ArithOp(Some(op), a, b) =>
      (match (Value(a), Value(b))
       case (Some(x), Some(y)) =>
         if op == Hdl.PLUS then Some(x + y)
         else if op == Hdl.MINUS then Some(x - y)
         else if op == Hdl.MUL then Some(x * y)
         else None
       case _ => None)
    case _ => None
  }

  /** Constant evaluation agrees with `Value` wherever `Value` is defined. */
  ghost predicate Sound(services: Services) {
    forall e :: Value(e).Some? ==> services.valueOf(e) == Value(e)
  }

  function IntLit(v: int): (r: Hdl.Expr)
    ensures Value(r) == Some(v)
  {
    Hdl.Lit(Hdl.IntLiteral(v))
  }

  /** The value VHDL gives a bit-string literal's digits: hexadecimal for
      `X"…"`, binary for `B"…"`; the empty digit string is zero. */
  function DigitsValue(text: string, radix: nat): Option<int>
    requires 2 <= radix <= 36
    requires |text| >= 3
  {
    var digits := text[2..|text| - 1];
    if |digits| == 0 then Some(0) else Strings.ParseInt(digits, radix)
  }

  /** The integer an expression built from decimal, hexadecimal and binary
      literals, parentheses, constants, addition, subtraction and
      multiplication denotes when its binary literals are read in the base
      of the variant. */
  function ReadValue(v: Variant, s: Source): Option<int> {
    match s
    case DecimalLiteral(d) => Strings.ParseInt(d, 10)
    case HexLiteral(t) => if |t| >= 3 then DigitsValue(t, 16) else None
    case BinaryLiteral(t) => if |t| >= 3 then DigitsValue(t, BinaryRadix(v)) else None
    case Parentheses(inner) => ReadValue(v, inner)
    case Constant(Some(d)) => ReadValue(v, d)
    case BinaryExpression(kind, l, r) =>
      (match (ReadValue(v, l), ReadValue(v, r))
       case (Some(x), Some(y)) =>
         if kind == PLUS then Some(x + y)
         else if kind == MINUS then Some(x - y)
         else if kind == MULTIPLY then Some(x * y)
         else None
       case _ => None)
    case _ => None
  }

  /** The integer VHDL gives an expression: binary literals in base 2. */
  function SourceValue(s: Source): Option<int> {
    ReadValue(Corrected, s)
  }

  /** No binary literal takes part in the expression's value. */
  predicate NoBinary(s: Source) {
    match s
    case BinaryLiteral(_) => false
    case Parentheses(inner) => NoBinary(inner)
    case Constant(Some(d)) => NoBinary(d)
    case BinaryExpression(_, l, r) => NoBinary(l) && NoBinary(r)
    case _ => true
  }

  /** Both variants give an expression without binary literals the value
      VHDL gives it. */
  lemma {:induction false} ReadingsAgree(s: Source)
    requires NoBinary(s)
    ensures ReadValue(AsWritten, s) == SourceValue(s)
  {
    match s
    case Parentheses(inner) => ReadingsAgree(inner);
    case Constant(d) => if d.Some? { ReadingsAgree(d.value); }
    case BinaryExpression(_, l, r) => ReadingsAgree(l); ReadingsAgree(r);
    case _ =>
  }

  // ----- literals -----

  /** The conversion of hexadecimal, binary and character literals as the
      importer writes it: the text between the two-character prefix and the
      closing quote is read in base 16 whatever the literal's kind.  Text
      shorter than three characters makes substring throw; digits BigInteger
      does not accept make it throw. */
  function BitStringValueAsWritten(s: Source): (r: Result<int>)
    requires s.HexLiteral? || s.BinaryLiteral? || s.CharacterLiteral?
    ensures r.Ok? ==> |s.text| >= 3 && Some(r.value) == DigitsValue(s.text, 16)
    ensures |s.text| >= 3 && DigitsValue(s.text, 16).Some? ==> r.Ok?
  {
    if |s.text| < 3 then Err(IndexOutOfBounds)
    else
      match DigitsValue(s.text, 16)
      case Some(v) => Ok(v)
      case None => Err(NumberFormat)
  }

  /** The digits of a binary literal are read in base 2 here, hexadecimal and
      character literals as before. */
  function BitStringValue(s: Source): (r: Result<int>)
    requires s.HexLiteral? || s.BinaryLiteral? || s.CharacterLiteral?
    ensures !s.CharacterLiteral? && SourceValue(s).Some? ==> r == Ok(SourceValue(s).value)
    ensures !s.CharacterLiteral? && r.Ok? ==> SourceValue(s) == Some(r.value)
    ensures !s.BinaryLiteral? ==> r == BitStringValueAsWritten(s)
  {
    if |s.text| < 3 then Err(IndexOutOfBounds)
    else
      match DigitsValue(s.text, if s.BinaryLiteral? then 2 else 16)
      case Some(v) => Ok(v)
      case None => Err(NumberFormat)
  }

  /** The literal conversion of a variant; either reads a hex or binary
      literal as its variant's value of it. */
  function BitString(v: Variant, s: Source): (r: Result<int>)
    requires s.HexLiteral? || s.BinaryLiteral? || s.CharacterLiteral?
    ensures !s.CharacterLiteral? && ReadValue(v, s).Some? ==> r == Ok(ReadValue(v, s).value)
    ensures !s.CharacterLiteral? && r.Ok? ==> ReadValue(v, s) == Some(r.value)
  {
    if v == AsWritten then BitStringValueAsWritten(s) else BitStringValue(s)
  }

  function BinaryDigits(n: nat): (r: string)
    ensures |r| >= 1
    ensures forall i :: 0 <= i < |r| ==> r[i] == '0' || r[i] == '1'
  {
    if n < 2 then [Strings.DigitChar(n)] else BinaryDigits(n / 2) + [Strings.DigitChar(n % 2)]
  }

  lemma {:induction false} ParseBinaryDigits(n: nat)
    ensures Strings.ParseDigits(BinaryDigits(n), 2) == Some(n)
  {
    var s := BinaryDigits(n);
    if n < 2 {
      assert s[..|s| - 1] == "";
    } else {
      ParseBinaryDigits(n / 2);
      assert s[..|s| - 1] == BinaryDigits(n / 2);
      assert s[|s| - 1] == Strings.DigitChar(n % 2);
    }
  }

  /** The binary literal VHDL writes for a natural number. */
  function BinaryLiteralOf(n: nat): Source {
    BinaryLiteral("B\"" + BinaryDigits(n) + "\"")
  }

  lemma BinaryLiteralDigits(n: nat)
    ensures |BinaryLiteralOf(n).text| >= 3
    ensures DigitsValue(BinaryLiteralOf(n).text, 2) == Strings.ParseDigits(BinaryDigits(n), 2)
    ensures DigitsValue(BinaryLiteralOf(n).text, 16) == Strings.ParseDigits(BinaryDigits(n), 16)
  {
    var t := BinaryLiteralOf(n).text;
    assert t[2..|t| - 1] == BinaryDigits(n);
    assert BinaryDigits(n)[0] != '-' && BinaryDigits(n)[0] != '+';
  }

  /** Every binary literal of a natural number has that number's value in
      VHDL, and the corrected importer converts it to that number. */
  lemma BinaryLiteralRoundTrip(n: nat, canBeString: bool)
    ensures SourceValue(BinaryLiteralOf(n)) == Some(n)
    ensures BitStringValue(BinaryLiteralOf(n)) == Ok(n)
    ensures GetExpression(Corrected, BinaryLiteralOf(n), canBeString) == Ok(Some(IntLit(n)))
  {
    BinaryLiteralDigits(n);
    ParseBinaryDigits(n);
  }

  /** A string of binary digits read in base 16 never gives less than in
      base 2, and gives more once the digits before the last have a
      non-zero value. */
  lemma {:induction false} HexReadingOfBits(ds: string)
    requires forall i :: 0 <= i < |ds| ==> ds[i] == '0' || ds[i] == '1'
    ensures Strings.ParseDigits(ds, 2).Some? && Strings.ParseDigits(ds, 16).Some?
    ensures Strings.ParseDigits(ds, 16).value >= Strings.ParseDigits(ds, 2).value
    ensures |ds| > 0 && Strings.ParseDigits(ds[..|ds| - 1], 2).Some? && Strings.ParseDigits(ds[..|ds| - 1], 2).value > 0 ==>
              Strings.ParseDigits(ds, 16).value > Strings.ParseDigits(ds, 2).value
  {
    if |ds| > 0 {
      var hi := ds[..|ds| - 1];
      assert forall i :: 0 <= i < |hi| ==> hi[i] == ds[i];
      HexReadingOfBits(hi);
      assert Strings.DigitValue(ds[|ds| - 1]).Some? && Strings.DigitValue(ds[|ds| - 1]).value < 2;
    }
  }

  /** As written, every binary literal of a natural number n converts to
      the value its digits have in base 16, which is n exactly when n < 2. */
  lemma BinaryLiteralMisread(n: nat, canBeString: bool)
    ensures var r := GetExpression(AsWritten, BinaryLiteralOf(n), canBeString);
            r.Ok? && r.value.Some? && Some(Value(r.value.value).value) == Strings.ParseDigits(BinaryDigits(n), 16)
    ensures var r := GetExpression(AsWritten, BinaryLiteralOf(n), canBeString);
            r == Ok(Some(IntLit(n))) <==> n < 2
  {
    var ds := BinaryDigits(n);
    BinaryLiteralDigits(n);
    ParseBinaryDigits(n);
    HexReadingOfBits(ds);
    if n >= 2 {
      assert ds[..|ds| - 1] == BinaryDigits(n / 2);
      ParseBinaryDigits(n / 2);
    } else {
      assert ds == [Strings.DigitChar(n)];
      assert ds[..0] == "";
    }
  }

  /** B"101", which VHDL reads as 5, is imported as 257. */
  lemma BinaryLiteralAsWritten(canBeString: bool)
    ensures SourceValue(BinaryLiteral("B\"101\"")) == Some(5)
    ensures BitStringValueAsWritten(BinaryLiteral("B\"101\"")) == Ok(257)
    ensures GetExpression(AsWritten, BinaryLiteral("B\"101\""), canBeString) == Ok(Some(IntLit(257)))
  {
    var t := "B\"101\"";
    assert t[2..|t| - 1] == "101";
    assert "101"[..2] == "10";
    assert "10"[..1] == "1";
    assert "1"[..0] == "";
    assert Strings.ParseDigits("1", 16) == Some(1) && Strings.ParseDigits("1", 2) == Some(1);
    assert Strings.ParseDigits("10", 16) == Some(16) && Strings.ParseDigits("10", 2) == Some(2);
    assert Strings.ParseDigits("101", 16) == Some(257) && Strings.ParseDigits("101", 2) == Some(5);
    LiteralImport(AsWritten, BinaryLiteral(t), canBeString);
  }

  lemma LiteralImport(v: Variant, s: Source, canBeString: bool)
    requires s.HexLiteral? || s.BinaryLiteral? || s.CharacterLiteral?
    ensures BitString(v, s).Ok? ==> GetExpression(v, s, canBeString) == Ok(Some(IntLit(BitString(v, s).value)))
  {
  }

  // ----- expressions -----

  /** The PSHDL operator of a binary VHDL expression kind. */
  function ArithOf(kind: ExpressionKind): (r: Option<Hdl.ArithOpType>)
    ensures r.Some? <==> kind != OtherKind
    ensures kind == PLUS <==> r == Some(Hdl.PLUS)
    ensures kind == MINUS <==> r == Some(Hdl.MINUS)
    ensures kind == MULTIPLY <==> r == Some(Hdl.MUL)
  {
    match kind
    case PLUS => Some(Hdl.PLUS)
    case MINUS => Some(Hdl.MINUS)
    case MULTIPLY => Some(Hdl.MUL)
    case DIVIDE => Some(Hdl.DIV)
    case MOD => Some(Hdl.MOD)
    case POW => Some(Hdl.POW)
    case OtherKind => None
  }

  /** getExpression: the PSHDL expression for a VHDL one.  Nothing (Java's
      absent) for a form the importer does not handle or when an operand has
      none; an error where the Java code throws.  A string literal becomes a
      string only where a string is allowed (`canBeString`). */
  function GetExpression(v: Variant, s: Source, canBeString: bool): (r: Result<Option<Hdl.Expr>>)
    ensures s.OtherSource? || (s.CharacterLiteral? && |s.text| == 3) ==> r.Ok?
    ensures s.OtherSource? || (s.Constant? && s.defaultValue.None?) ==> r == Ok(None)
    ensures s.SignalRef? ==> r == Ok(Some(Hdl.UnresolvedFragment(s.identifier)))
    ensures s.BinaryExpression? && s.kind == OtherKind && r.Ok? ==> r.value.None?
    ensures r.Ok? && r.value.Some? && r.value.value.ArithOp? ==> s.BinaryExpression? || s.Parentheses? || s.Constant?
    decreases s
  {
    match s
    case HexLiteral(_) => var n :- BitString(v, s); Ok(Some(IntLit(n)))
    case BinaryLiteral(_) => var n :- BitString(v, s); Ok(Some(IntLit(n)))
    case CharacterLiteral(_) => var n :- BitString(v, s); Ok(Some(IntLit(n)))
    case DecimalLiteral(d) =>
      (match Strings.ParseInt(d, 10)
       case Some(n) => Ok(Some(IntLit(n)))
       case None => Err(NumberFormat))
    case StringLiteral(chars) =>
      Ok(Some(Hdl.Lit(Hdl.Literal(chars, None, if canBeString then Some(Hdl.Str) else None))))
    case BinaryExpression(kind, left, right) =>
      var l :- GetExpression(v, left, false);
      if l.None? then Ok(None)
      else
        var rt :- GetExpression(v, right, false);
        if rt.None? then Ok(None)
        else
          (match ArithOf(kind)
           case Some(op) => Ok(Some(Hdl.ArithOp(Some(op), l.value, rt.value)))
           case None => Ok(None))
    case Constant(d) =>
      (match d
       case Some(dv) => GetExpression(v, dv, true)
       case None => Ok(None))
    case BooleanFalse => Ok(Some(Hdl.Lit(Hdl.Literal("false", None, Some(Hdl.Bool)))))
    case BooleanTrue => Ok(Some(Hdl.Lit(Hdl.Literal("true", None, Some(Hdl.Bool)))))
    case Parentheses(inner) => GetExpression(v, inner, canBeString)
    case SignalRef(id) => Ok(Some(Hdl.UnresolvedFragment(id)))
    case OtherSource => Ok(None)
  }

  /** Importing keeps the value a variant reads in every integer
      expression: the result exists and denotes the same integer.  For the
      corrected importer that is the value VHDL gives the expression. */
  lemma {:induction false} ImportKeepsValue(v: Variant, s: Source, canBeString: bool)
    requires ReadValue(v, s).Some?
    ensures GetExpression(v, s, canBeString).Ok?
    ensures GetExpression(v, s, canBeString).value.Some?
    ensures Value(GetExpression(v, s, canBeString).value.value) == ReadValue(v, s)
    decreases s
  {
    match s
    case BinaryExpression(kind, left, right) =>
      ImportKeepsValue(v, left, false);
      ImportKeepsValue(v, right, false);
    case Parentheses(inner) => ImportKeepsValue(v, inner, canBeString);
    case Constant(d) => ImportKeepsValue(v, d.value, true);
    case _ =>
  }

  /** The importer as written keeps the value VHDL gives every integer
      expression without binary literals. */
  lemma AsWrittenKeepsValue(s: Source, canBeString: bool)
    requires NoBinary(s) && SourceValue(s).Some?
    ensures GetExpression(AsWritten, s, canBeString).Ok?
    ensures GetExpression(AsWritten, s, canBeString).value.Some?
    ensures Value(GetExpression(AsWritten, s, canBeString).value.value) == SourceValue(s)
  {
    ReadingsAgree(s);
    ImportKeepsValue(AsWritten, s, canBeString);
  }

  // ----- ranges -----

  /** subThenPlus1: `(from - to) + 1`, folded to a literal when it is
      constant. */
  function SubThenPlus1(services: Services, from: Hdl.Expr, to: Hdl.Expr): (r: Hdl.Expr)
    ensures var op := Hdl.ArithOp(Some(Hdl.PLUS), Hdl.ArithOp(Some(Hdl.MINUS), from, to), IntLit(1));
            services.valueOf(op).None? ==> r == op
    ensures Sound(services) && Value(from).Some? && Value(to).Some? ==>
              r == IntLit(Value(from).value - Value(to).value + 1)
    ensures Sound(services) && Value(from).Some? && Value(to).Some? ==>
              Value(r) == Some(Value(from).value - Value(to).value + 1)
  {
    var op := Hdl.ArithOp(Some(Hdl.PLUS), Hdl.ArithOp(Some(Hdl.MINUS), from, to), IntLit(1));
    if Value(from).Some? && Value(to).Some? then
      assert Value(Hdl.ArithOp(Some(Hdl.MINUS), from, to)) == Some(Value(from).value - Value(to).value);
      assert Value(op) == Some(Value(from).value - Value(to).value + 1);
      match services.valueOf(op)
      case Some(v) => IntLit(v)
      case None => op
    else
      match services.valueOf(op)
      case Some(v) => IntLit(v)
      case None => op
  }

  /** convertRange: the number of elements of a range, `from - to + 1` for
      DOWNTO and `to - from + 1` for TO; nothing when a bound has no PSHDL
      form. */
  function ConvertRange(services: Services, v: Variant, rg: Range): (r: Result<Option<Hdl.Expr>>)
    ensures r.Ok? && r.value.None? ==>
              (GetExpression(v, rg.from, false) == Ok(None) || GetExpression(v, rg.to, false) == Ok(None))
  {
    var from :- GetExpression(v, rg.from, false);
    if from.None? then Ok(None)
    else
      var to :- GetExpression(v, rg.to, false);
      if to.None? then Ok(None)
      else if rg.direction == DOWNTO then Ok(Some(SubThenPlus1(services, from.value, to.value)))
      else Ok(Some(SubThenPlus1(services, to.value, from.value)))
  }

  /** The width of a range with integer bounds is its number of elements,
      counted in the range's own direction. */
  lemma RangeWidth(services: Services, v: Variant, rg: Range)
    requires Sound(services)
    requires ReadValue(v, rg.from).Some? && ReadValue(v, rg.to).Some?
    ensures ConvertRange(services, v, rg).Ok? && ConvertRange(services, v, rg).value.Some?
    ensures var f, t := ReadValue(v, rg.from).value, ReadValue(v, rg.to).value;
            Value(ConvertRange(services, v, rg).value.value)
              == Some(if rg.direction == DOWNTO then f - t + 1 else t - f + 1)
  {
    ImportKeepsValue(v, rg.from, false);
    ImportKeepsValue(v, rg.to, false);
    var f, t := GetExpression(v, rg.from, false).value.value, GetExpression(v, rg.to, false).value.value;
    ConvertRangeOf(services, v, rg, f, t);
  }

  lemma ConvertRangeOf(services: Services, v: Variant, rg: Range, f: Hdl.Expr, t: Hdl.Expr)
    requires GetExpression(v, rg.from, false) == Ok(Some(f)) && GetExpression(v, rg.to, false) == Ok(Some(t))
    ensures ConvertRange(services, v, rg)
              == Ok(Some(if rg.direction == DOWNTO then SubThenPlus1(services, f, t) else SubThenPlus1(services, t, f)))
  {
  }

  function RangeWidthOf(services: Services, v: Variant, d: DiscreteRange): (r: Result<Option<Hdl.Expr>>)
    requires d.IndexRange?
    ensures r == ConvertRange(services, v, d.range)
  {
    ConvertRange(services, v, d.range)
  }

  /** The width of each index range, in order; nothing when one of them has
      no width. A range that is not an index range is a failed cast. */
  function RangeWidths(services: Services, v: Variant, ranges: seq<DiscreteRange>): (r: Result<Option<seq<Hdl.Expr>>>)
    ensures r.Ok? && r.value.Some? ==> |r.value.value| == |ranges|
    ensures r.Ok? && r.value.Some? ==> WidthsOf(services, v, ranges, r.value.value)
    decreases |ranges|
  {
    if |ranges| == 0 then Ok(Some([]))
    else if ranges[0].OtherDiscrete? then Err(ClassCast)
    else
      var w :- RangeWidthOf(services, v, ranges[0]);
      if w.None? then Ok(None)
      else
        var rest :- RangeWidths(services, v, ranges[1..]);
        if rest.None? then Ok(None)
        else
          ConsWidths(services, v, ranges, w.value, rest.value);
          Ok(Some([w.value] + rest.value))
  }

  /** `widths` lists, position by position, the widths of `ranges`, all of
      which are index ranges. */
  predicate WidthsOf(services: Services, v: Variant, ranges: seq<DiscreteRange>, widths: seq<Hdl.Expr>)
    requires |widths| == |ranges|
  {
    forall i :: 0 <= i < |ranges| ==>
      ranges[i].IndexRange? && ConvertRange(services, v, ranges[i].range) == Ok(Some(widths[i]))
  }

  lemma ConsWidths(services: Services, v: Variant, ranges: seq<DiscreteRange>, w: Hdl.Expr, rest: seq<Hdl.Expr>)
    requires |ranges| > 0 && ranges[0].IndexRange?
    requires RangeWidthOf(services, v, ranges[0]) == Ok(Some(w))
    requires |rest| == |ranges| - 1 && WidthsOf(services, v, ranges[1..], rest)
    ensures WidthsOf(services, v, ranges, [w] + rest)
  {
    forall i | 0 <= i < |ranges|
      ensures ranges[i].IndexRange? && ConvertRange(services, v, ranges[i].range) == Ok(Some(([w] + rest)[i]))
    {
      if i > 0 {
        assert ranges[1..][i - 1] == ranges[i];
      }
    }
  }

  /** convertRanges: the width of each index range, appended to `dims` in
      order; nothing when one of them has no width. */
  function ConvertRanges(services: Services, v: Variant, ranges: seq<DiscreteRange>, dims: seq<Hdl.Expr>): (r: Result<Option<seq<Hdl.Expr>>>)
    ensures r.Ok? && r.value.Some? ==> |r.value.value| == |dims| + |ranges| && r.value.value[..|dims|] == dims
    ensures r.Ok? && r.value.Some? ==>
              forall i :: 0 <= i < |ranges| ==>
                (ranges[i].IndexRange? && ConvertRange(services, v, ranges[i].range) == Ok(Some(r.value.value[|dims| + i])))
  {
    var ws :- RangeWidths(services, v, ranges);
    if ws.None? then Ok(None)
    else
      AppendWidths(services, v, ranges, dims, ws.value);
      Ok(Some(dims + ws.value))
  }

  lemma AppendWidths(services: Services, v: Variant, ranges: seq<DiscreteRange>, dims: seq<Hdl.Expr>, ws: seq<Hdl.Expr>)
    requires |ws| == |ranges| && WidthsOf(services, v, ranges, ws)
    ensures (dims + ws)[..|dims|] == dims
    ensures forall i :: 0 <= i < |ranges| ==>
              (ranges[i].IndexRange? && ConvertRange(services, v, ranges[i].range) == Ok(Some((dims + ws)[|dims| + i])))
  {
    assert (dims + ws)[..|dims|] == dims;
    forall i | 0 <= i < |ranges|
      ensures ranges[i].IndexRange? && ConvertRange(services, v, ranges[i].range) == Ok(Some((dims + ws)[|dims| + i]))
    {
      assert (dims + ws)[|dims| + i] == ws[i];
    }
  }

  // ----- types -----

  const STD_LOGIC := "std_logic"
  const STD_ULOGIC := "std_ulogic"
  const BIT := "bit"
  const STD_LOGIC_VECTOR := "std_logic_vector"
  const STD_ULOGIC_VECTOR := "std_ulogic_vector"
  const BIT_VECTOR := "bit_vector"
  const SIGNED := "signed"
  const UNSIGNED := "unsigned"
  const INTEGER := "integer"
  const NATURAL := "natural"
  const STRING := "string"
  const BOOLEAN := "boolean"

  /** The scalar bit types and the vector of each. */
  const BitTypes: set<string> := {STD_LOGIC, STD_ULOGIC, BIT}

  function VectorOf(element: string): string {
    if element == STD_LOGIC then STD_LOGIC_VECTOR
    else if element == STD_ULOGIC then STD_ULOGIC_VECTOR
    else BIT_VECTOR
  }

  /** The type table as the importer writes it: the vector test asks for
      std_ulogic a second time, where std_ulogic_vector was meant, so
      std_ulogic_vector has no primitive type. */
  function PredefinedAsWritten(typeName: string): (r: Option<Hdl.PrimitiveType>)
    ensures r == Some(Hdl.BIT) <==> typeName in BitTypes
    ensures r == Some(Hdl.BITVECTOR) <==> typeName == STD_LOGIC_VECTOR || typeName == BIT_VECTOR
  {
    if typeName == STD_LOGIC || typeName == STD_ULOGIC || typeName == BIT then Some(Hdl.BIT)
    else if typeName == STD_LOGIC_VECTOR || typeName == STD_ULOGIC || typeName == BIT_VECTOR then Some(Hdl.BITVECTOR)
    else if typeName == SIGNED then Some(Hdl.INT)
    else if typeName == UNSIGNED then Some(Hdl.UINT)
    else if typeName == INTEGER then Some(Hdl.INTEGER)
    else if typeName == NATURAL then Some(Hdl.NATURAL)
    else if typeName == STRING then Some(Hdl.STRING)
    else if typeName == BOOLEAN then Some(Hdl.BOOL)
    else None
  }

  /** The type table with std_ulogic_vector mapped to a bit vector like the
      other two vectors. */
  function Predefined(typeName: string): (r: Option<Hdl.PrimitiveType>)
    ensures r == Some(Hdl.BIT) <==> typeName in BitTypes
    ensures typeName != STD_ULOGIC_VECTOR ==> r == PredefinedAsWritten(typeName)
  {
    if typeName == STD_ULOGIC_VECTOR then Some(Hdl.BITVECTOR) else PredefinedAsWritten(typeName)
  }

  /** The vector of every bit type is a bit vector. */
  lemma VectorsOfBits(element: string)
    requires element in BitTypes
    ensures Predefined(element) == Some(Hdl.BIT)
    ensures Predefined(VectorOf(element)) == Some(Hdl.BITVECTOR)
  {
    if element == STD_ULOGIC {
      assert VectorOf(element) == STD_ULOGIC_VECTOR;
    }
  }

  /** std_ulogic is a bit, but its vector is not imported. */
  lemma UlogicVectorAsWritten()
    ensures PredefinedAsWritten(STD_ULOGIC) == Some(Hdl.BIT)
    ensures PredefinedAsWritten(VectorOf(STD_ULOGIC)).None?
  {
    assert VectorOf(STD_ULOGIC) == STD_ULOGIC_VECTOR;
  }

  /** The type table of a variant. */
  function TypeTable(v: Variant, typeName: string): Option<Hdl.PrimitiveType> {
    if v == AsWritten then PredefinedAsWritten(typeName) else Predefined(typeName)
  }

  /** The predefined type a subtype indication is built on, through
      index constraints, range constraints and array element types. */
  function Leaf(t: Subtype): Option<string> {
    match t
    case Named(n) => Some(n)
    case IndexSubtype(base, _) => Leaf(base)
    case RangeSubtype(base, _) => Leaf(base)
    case ConstrainedArray(_, _, element) => Leaf(element)
    case UnconstrainedArray(_, element) => Leaf(element)
    case EnumerationType(_) => None
  }

  /** The number of array dimensions a subtype indication adds: one per index
      range of a constrained array, one per unconstrained array. */
  function Depth(t: Subtype): nat {
    match t
    case Named(_) => 0
    case IndexSubtype(base, _) => Depth(base)
    case RangeSubtype(base, _) => Depth(base)
    case ConstrainedArray(_, ranges, element) => |ranges| + Depth(element)
    case UnconstrainedArray(_, element) => 1 + Depth(element)
    case EnumerationType(_) => 0
  }

  /** The annotations an array layer adds. */
  function ArrayLayers(t: Subtype): nat {
    match t
    case Named(_) => 0
    case IndexSubtype(base, _) => ArrayLayers(base)
    case RangeSubtype(base, _) => ArrayLayers(base)
    case ConstrainedArray(_, _, element) => 1 + ArrayLayers(element)
    case UnconstrainedArray(_, element) => 1 + ArrayLayers(element)
    case EnumerationType(_) => 0
  }

  /** The range constraints met on the way to the leaf. */
  function RangeLayers(t: Subtype): nat {
    match t
    case Named(_) => 0
    case IndexSubtype(base, _) => RangeLayers(base)
    case RangeSubtype(base, _) => 1 + RangeLayers(base)
    case ConstrainedArray(_, _, element) => RangeLayers(element)
    case UnconstrainedArray(_, element) => RangeLayers(element)
    case EnumerationType(_) => 0
  }

  /** createVar: one variable named after the last segment of its qualified
      name.  A default value that has no PSHDL form leaves the variable
      without one and records a warning comment. */
  function CreateVar(services: Services, v: Variant, defaultValue: Option<Source>, direction: Hdl.Direction, pt: Hdl.PrimitiveType,
                     qfn: Hdl.QName, width: Option<Hdl.Expr>, dims: seq<Hdl.Expr>): (r: Result<Option<Imported>>)
    ensures r.Ok? ==> r.value.Some? && |qfn| > 0
    ensures r.Ok? ==> var d := r.value.value;
              d.ptype == pt && d.width == width && d.name == qfn[|qfn| - 1] && d.dimensions == dims
              && d.direction == direction && d.annotations == []
    ensures r.Ok? ==> (r.value.value.defaultValue.Some? ==> defaultValue.Some?)
                      && (r.value.value.conversionFailed <==> defaultValue.Some? && r.value.value.defaultValue.None?)
    ensures defaultValue.Some? && r.Ok? ==>
              GetExpression(v, defaultValue.value, pt == Hdl.STRING) == Ok(r.value.value.defaultValue)
    ensures |qfn| > 0 && defaultValue.None? ==> r.Ok?
  {
    var name :- Hdl.LastSegment(qfn);
    match defaultValue
    case None => Ok(Some(Imported(direction, pt, width, name, dims, None, false, [])))
    case Some(dv) =>
      var e :- GetExpression(v, dv, pt == Hdl.STRING);
      Ok(Some(Imported(direction, pt, width, name, dims, e, e.None?, [])))
  }

  /** The annotation a range constraint adds, low bound first: `to;from`
      for DOWNTO and `from;to` for TO; none when a bound has no PSHDL form. */
  function RangeAnnotationOf(v: Variant, rg: Range): (r: Result<seq<Annotation>>)
    ensures r.Ok? ==> |r.value| <= 1
    ensures r.Ok? <==> GetExpression(v, rg.from, false).Ok? && GetExpression(v, rg.to, false).Ok?
    ensures r.Ok? && |r.value| == 1 ==>
              GetExpression(v, rg.from, false).value.Some? && GetExpression(v, rg.to, false).value.Some? &&
              var from, to := GetExpression(v, rg.from, false).value.value, GetExpression(v, rg.to, false).value.value;
              r.value[0] == (if rg.direction == DOWNTO then RangeAnnotation(to, from) else RangeAnnotation(from, to))
    ensures r.Ok? && |r.value| == 0 ==> GetExpression(v, rg.from, false).value.None? || GetExpression(v, rg.to, false).value.None?
  {
    var from :- GetExpression(v, rg.from, false);
    var to :- GetExpression(v, rg.to, false);
    if from.Some? && to.Some? then
      Ok([if rg.direction == DOWNTO then RangeAnnotation(to.value, from.value) else RangeAnnotation(from.value, to.value)])
    else Ok([])
  }

  /** A declaration with annotations added after its own. */
  function Annotate(d: Imported, extra: seq<Annotation>): (r: Imported)
    ensures r.direction == d.direction && r.ptype == d.ptype && r.name == d.name && r.dimensions == d.dimensions
    ensures |r.annotations| == |d.annotations| + |extra|
    ensures r.annotations[..|d.annotations|] == d.annotations && r.annotations[|d.annotations|..] == extra
  {
    d.(annotations := d.annotations + extra)
  }

  /** getVariable: the declaration for a port or generic of the given
      subtype.  Nothing (Java's absent) when the subtype rests on no
      predefined type of the table, or a range has no width; an error where
      the Java code throws. */
  function GetVariable(services: Services, v: Variant, defaultValue: Option<Source>, t: Subtype, direction: Hdl.Direction,
                       qfn: Hdl.QName, width: Option<Hdl.Expr>, dims: seq<Hdl.Expr>): (r: Result<Option<Imported>>)
    ensures t.EnumerationType? ==> r == Ok(None)
    ensures t.Named? && TypeTable(v, t.typeName).None? ==> r == Ok(None)
    decreases t
  {
    match t
    case IndexSubtype(base, ranges) =>
      if |ranges| == 0 then Err(IndexOutOfBounds)
      else if ranges[0].OtherDiscrete? then Err(ClassCast)
      else
        var w :- ConvertRange(services, v, ranges[0].range);
        if w.None? then Ok(None)
        else GetVariable(services, v, defaultValue, base, direction, qfn, w, dims)
    case Named(n) =>
      (match TypeTable(v, n)
       case Some(pt) => CreateVar(services, v, defaultValue, direction, pt, qfn, width, dims)
       case None => Ok(None))
    case RangeSubtype(base, rangeOf) =>
      var decl :- GetVariable(services, v, defaultValue, base, direction, qfn, width, dims);
      if decl.None? then Ok(None)
      else
        (match rangeOf
         case None => Ok(decl)
         case Some(rg) =>
           var a :- RangeAnnotationOf(v, rg);
           Ok(Some(Annotate(decl.value, a))))
    case ConstrainedArray(id, ranges, element) =>
      var ds :- ConvertRanges(services, v, ranges, dims);
      if ds.None? then Ok(None)
      else
        var decl :- GetVariable(services, v, defaultValue, element, direction, qfn, None, ds.value);
        if decl.None? then Ok(None)
        else
          Ok(Some(Annotate(decl.value, [VHDLTypeAnnotation(services.fullName(id))])))
    case UnconstrainedArray(id, element) =>
      var decl :- GetVariable(services, v, defaultValue, element, direction, qfn, None, dims + [IntLit(-20)]);
      if decl.None? then Ok(None)
      else
        Ok(Some(Annotate(decl.value, [VHDLTypeAnnotation(services.fullName(id))])))
    case EnumerationType(_) => Ok(None)
  }

  /** What every declaration getVariable builds looks like: the primitive
      type of the innermost named subtype, the last segment of the name,
      one dimension per array index after the given ones, one annotation
      per array layer and at most one per range constraint, the last naming
      the VHDL type of an array. */
  predicate Shaped(services: Services, v: Variant, t: Subtype, direction: Hdl.Direction, qfn: Hdl.QName,
                   dims: seq<Hdl.Expr>, d: Imported)
  {
    && Leaf(t).Some? && TypeTable(v, Leaf(t).value) == Some(d.ptype)
    && |qfn| > 0 && d.name == qfn[|qfn| - 1] && d.direction == direction
    && |d.dimensions| == |dims| + Depth(t) && d.dimensions[..|dims|] == dims
    && ArrayLayers(t) <= |d.annotations| <= ArrayLayers(t) + RangeLayers(t)
    && ((t.ConstrainedArray? || t.UnconstrainedArray?) ==>
          d.annotations[|d.annotations| - 1] == VHDLTypeAnnotation(services.fullName(t.identifier)))
  }

  /** A getVariable outcome is Shaped when it is a declaration. */
  predicate ShapedResult(services: Services, v: Variant, t: Subtype, direction: Hdl.Direction, qfn: Hdl.QName,
                         dims: seq<Hdl.Expr>, r: Result<Option<Imported>>)
  {
    r.Ok? && r.value.Some? ==> Shaped(services, v, t, direction, qfn, dims, r.value.value)
  }

  /** Every declaration getVariable returns is Shaped; a named subtype is
      created by createVar with the predefined type it stands for. */
  lemma {:induction false} GetVariableShape(services: Services, v: Variant, defaultValue: Option<Source>, t: Subtype,
                                            direction: Hdl.Direction, qfn: Hdl.QName, width: Option<Hdl.Expr>,
                                            dims: seq<Hdl.Expr>)
    ensures ShapedResult(services, v, t, direction, qfn, dims,
                         GetVariable(services, v, defaultValue, t, direction, qfn, width, dims))
    ensures t.Named? && TypeTable(v, t.typeName).Some? ==>
              GetVariable(services, v, defaultValue, t, direction, qfn, width, dims)
                == CreateVar(services, v, defaultValue, direction, TypeTable(v, t.typeName).value, qfn, width, dims)
    decreases t
  {
    match t
    case IndexSubtype(base, ranges) =>
      if |ranges| > 0 && ranges[0].IndexRange? {
        var w := ConvertRange(services, v, ranges[0].range);
        if w.Ok? && w.value.Some? {
          GetVariableShape(services, v, defaultValue, base, direction, qfn, w.value, dims);
          IndexShape(services, v, defaultValue, base, ranges, direction, qfn, width, dims);
        }
      }
    case Named(n) =>
    case RangeSubtype(base, rangeOf) =>
      GetVariableShape(services, v, defaultValue, base, direction, qfn, width, dims);
      RangeShape(services, v, defaultValue, base, rangeOf, direction, qfn, width, dims);
    case ConstrainedArray(id, ranges, element) =>
      var ds := ConvertRanges(services, v, ranges, dims);
      if ds.Ok? && ds.value.Some? {
        GetVariableShape(services, v, defaultValue, element, direction, qfn, None, ds.value.value);
        ConstrainedShape(services, v, defaultValue, id, ranges, element, direction, qfn, width, dims);
      }
    case UnconstrainedArray(id, element) =>
      GetVariableShape(services, v, defaultValue, element, direction, qfn, None, dims + [IntLit(-20)]);
      UnconstrainedShape(services, v, defaultValue, id, element, direction, qfn, width, dims);
    case EnumerationType(_) =>
  }

  lemma IndexShape(services: Services, v: Variant, defaultValue: Option<Source>, base: Subtype, ranges: seq<DiscreteRange>,
                   direction: Hdl.Direction, qfn: Hdl.QName, width: Option<Hdl.Expr>, dims: seq<Hdl.Expr>)
    requires |ranges| > 0 && ranges[0].IndexRange?
    requires ConvertRange(services, v, ranges[0].range).Ok? && ConvertRange(services, v, ranges[0].range).value.Some?
    requires ShapedResult(services, v, base, direction, qfn, dims,
                          GetVariable(services, v, defaultValue, base, direction, qfn, ConvertRange(services, v, ranges[0].range).value, dims))
    ensures ShapedResult(services, v, IndexSubtype(base, ranges), direction, qfn, dims,
                         GetVariable(services, v, defaultValue, IndexSubtype(base, ranges), direction, qfn, width, dims))
  {
  }

  lemma RangeShape(services: Services, v: Variant, defaultValue: Option<Source>, base: Subtype, rangeOf: Option<Range>,
                   direction: Hdl.Direction, qfn: Hdl.QName, width: Option<Hdl.Expr>, dims: seq<Hdl.Expr>)
    requires ShapedResult(services, v, base, direction, qfn, dims,
                          GetVariable(services, v, defaultValue, base, direction, qfn, width, dims))
    ensures ShapedResult(services, v, RangeSubtype(base, rangeOf), direction, qfn, dims,
                         GetVariable(services, v, defaultValue, RangeSubtype(base, rangeOf), direction, qfn, width, dims))
  {
    var decl := GetVariable(services, v, defaultValue, base, direction, qfn, width, dims);
    var r := GetVariable(services, v, defaultValue, RangeSubtype(base, rangeOf), direction, qfn, width, dims);
    if decl.Ok? && decl.value.Some? {
      if rangeOf.Some? {
        var a := RangeAnnotationOf(v, rangeOf.value);
        if a.Ok? {
          assert r == Ok(Some(Annotate(decl.value.value, a.value)));
          ShapeRange(services, v, base, rangeOf, direction, qfn, dims, decl.value.value, a.value);
        }
      } else {
        assert r == decl;
      }
    }
  }

  lemma ConstrainedShape(services: Services, v: Variant, defaultValue: Option<Source>, id: string, ranges: seq<DiscreteRange>,
                         element: Subtype, direction: Hdl.Direction, qfn: Hdl.QName, width: Option<Hdl.Expr>,
                         dims: seq<Hdl.Expr>)
    requires var ds := ConvertRanges(services, v, ranges, dims);
             ds.Ok? && ds.value.Some? &&
             ShapedResult(services, v, element, direction, qfn, ds.value.value,
                          GetVariable(services, v, defaultValue, element, direction, qfn, None, ds.value.value))
    ensures ShapedResult(services, v, ConstrainedArray(id, ranges, element), direction, qfn, dims,
                         GetVariable(services, v, defaultValue, ConstrainedArray(id, ranges, element), direction, qfn, width, dims))
  {
    var ds := ConvertRanges(services, v, ranges, dims).value.value;
    var decl := GetVariable(services, v, defaultValue, element, direction, qfn, None, ds);
    if decl.Ok? && decl.value.Some? {
      var t := ConstrainedArray(id, ranges, element);
      assert GetVariable(services, v, defaultValue, t, direction, qfn, width, dims)
               == Ok(Some(Annotate(decl.value.value, [VHDLTypeAnnotation(services.fullName(id))])));
      assert |ds| == |dims| + |ranges| && ds[..|dims|] == dims;
      ShapeArray(services, v, t, direction, qfn, dims, ds, decl.value.value);
    }
  }

  lemma UnconstrainedShape(services: Services, v: Variant, defaultValue: Option<Source>, id: string, element: Subtype,
                           direction: Hdl.Direction, qfn: Hdl.QName, width: Option<Hdl.Expr>, dims: seq<Hdl.Expr>)
    requires ShapedResult(services, v, element, direction, qfn, dims + [IntLit(-20)],
                          GetVariable(services, v, defaultValue, element, direction, qfn, None, dims + [IntLit(-20)]))
    ensures ShapedResult(services, v, UnconstrainedArray(id, element), direction, qfn, dims,
                         GetVariable(services, v, defaultValue, UnconstrainedArray(id, element), direction, qfn, width, dims))
  {
    var decl := GetVariable(services, v, defaultValue, element, direction, qfn, None, dims + [IntLit(-20)]);
    if decl.Ok? && decl.value.Some? {
      var t := UnconstrainedArray(id, element);
      assert GetVariable(services, v, defaultValue, t, direction, qfn, width, dims)
               == Ok(Some(Annotate(decl.value.value, [VHDLTypeAnnotation(services.fullName(id))])));
      assert (dims + [IntLit(-20)])[..|dims|] == dims;
      ShapeArray(services, v, t, direction, qfn, dims, dims + [IntLit(-20)], decl.value.value);
    }
  }

  /** A range constraint keeps the declaration of its base and adds at most
      one annotation. */
  lemma ShapeRange(services: Services, v: Variant, base: Subtype, rangeOf: Option<Range>, direction: Hdl.Direction,
                   qfn: Hdl.QName, dims: seq<Hdl.Expr>, decl: Imported, a: seq<Annotation>)
    requires Shaped(services, v, base, direction, qfn, dims, decl) && |a| <= 1
    ensures Shaped(services, v, RangeSubtype(base, rangeOf), direction, qfn, dims, Annotate(decl, a))
  {
  }

  /** An array layer adds its dimensions after the given ones and its type
      annotation after the element's annotations. */
  lemma ShapeArray(services: Services, v: Variant, t: Subtype, direction: Hdl.Direction, qfn: Hdl.QName,
                   dims: seq<Hdl.Expr>, ds: seq<Hdl.Expr>, decl: Imported)
    requires t.ConstrainedArray? || t.UnconstrainedArray?
    requires |dims| <= |ds| && |ds| + Depth(t.element) == |dims| + Depth(t) && ds[..|dims|] == dims
    requires Shaped(services, v, t.element, direction, qfn, ds, decl)
    ensures Shaped(services, v, t, direction, qfn, dims, Annotate(decl, [VHDLTypeAnnotation(services.fullName(t.identifier))]))
  {
    PrefixOfPrefix(dims, ds, decl.dimensions);
  }

  lemma PrefixOfPrefix<T>(a: seq<T>, b: seq<T>, c: seq<T>)
    requires |a| <= |b| <= |c| && b[..|a|] == a && c[..|b|] == b
    ensures c[..|a|] == a
  {
    assert c[..|a|] == c[..|b|][..|a|];
  }

  /** An unconstrained array contributes the dimension -20, the importer's
      marker for an open index range, right after the dimensions it was
      given. */
  lemma UnconstrainedMarker(services: Services, v: Variant, defaultValue: Option<Source>, id: string, element: Subtype,
                            direction: Hdl.Direction, qfn: Hdl.QName, width: Option<Hdl.Expr>, dims: seq<Hdl.Expr>)
    requires GetVariable(services, v, defaultValue, UnconstrainedArray(id, element), direction, qfn, width, dims).Ok?
    requires GetVariable(services, v, defaultValue, UnconstrainedArray(id, element), direction, qfn, width, dims).value.Some?
    ensures var d := GetVariable(services, v, defaultValue, UnconstrainedArray(id, element), direction, qfn, width, dims).value.value;
            |d.dimensions| > |dims| && d.dimensions[|dims|] == IntLit(-20)
  {
    var marked := dims + [IntLit(-20)];
    GetVariableShape(services, v, defaultValue, element, direction, qfn, None, marked);
    var inner := GetVariable(services, v, defaultValue, element, direction, qfn, None, marked).value.value;
    assert inner.dimensions[..|marked|] == marked;
    assert inner.dimensions[|dims|] == inner.dimensions[..|marked|][|dims|];
  }

  /** A range constraint with integer bounds is annotated low bound first:
      `to;from` for DOWNTO and `from;to` for TO, so that for a non-null
      range the first value never exceeds the second. */
  lemma RangeAnnotationAscending(services: Services, v: Variant, defaultValue: Option<Source>, base: Subtype, rg: Range,
                                 direction: Hdl.Direction, qfn: Hdl.QName, width: Option<Hdl.Expr>, dims: seq<Hdl.Expr>)
    requires ReadValue(v, rg.from).Some? && ReadValue(v, rg.to).Some?
    requires rg.direction == DOWNTO ==> ReadValue(v, rg.from).value >= ReadValue(v, rg.to).value
    requires rg.direction == TO ==> ReadValue(v, rg.from).value <= ReadValue(v, rg.to).value
    requires GetVariable(services, v, defaultValue, RangeSubtype(base, Some(rg)), direction, qfn, width, dims).Ok?
    requires GetVariable(services, v, defaultValue, RangeSubtype(base, Some(rg)), direction, qfn, width, dims).value.Some?
    ensures var d := GetVariable(services, v, defaultValue, RangeSubtype(base, Some(rg)), direction, qfn, width, dims).value.value;
            |d.annotations| > 0
            && d.annotations[|d.annotations| - 1].RangeAnnotation?
            && Value(d.annotations[|d.annotations| - 1].first).Some?
            && Value(d.annotations[|d.annotations| - 1].second).Some?
            && Value(d.annotations[|d.annotations| - 1].first).value <= Value(d.annotations[|d.annotations| - 1].second).value
  {
    ImportKeepsValue(v, rg.from, false);
    ImportKeepsValue(v, rg.to, false);
  }
  /** A port or generic declared `std_ulogic_vector` is, as written, not
      imported at all, while `std_logic_vector` becomes a bit vector; the
      corrected importer makes both bit vectors. */
  lemma UlogicVectorImport(services: Services, defaultValue: Option<Source>, direction: Hdl.Direction,
                           qfn: Hdl.QName, width: Option<Hdl.Expr>, dims: seq<Hdl.Expr>)
    ensures GetVariable(services, AsWritten, defaultValue, Named(STD_ULOGIC_VECTOR), direction, qfn, width, dims) == Ok(None)
    ensures GetVariable(services, AsWritten, defaultValue, Named(STD_LOGIC_VECTOR), direction, qfn, width, dims)
              == CreateVar(services, AsWritten, defaultValue, direction, Hdl.BITVECTOR, qfn, width, dims)
    ensures GetVariable(services, Corrected, defaultValue, Named(STD_ULOGIC_VECTOR), direction, qfn, width, dims)
              == CreateVar(services, Corrected, defaultValue, direction, Hdl.BITVECTOR, qfn, width, dims)
  {
  }
  /** Should the library declare std_ulogic_vector as an unconstrained
      array of std_ulogic, the importer as written passes it by the vector
      test and imports an array of `bit` with the open-range marker as its
      extra dimension, not a `bit<>`. */
  lemma UlogicVectorAsArray(services: Services, defaultValue: Option<Source>, direction: Hdl.Direction,
                            qfn: Hdl.QName, width: Option<Hdl.Expr>, dims: seq<Hdl.Expr>)
    ensures var r := GetVariable(services, AsWritten, defaultValue, UnconstrainedArray(STD_ULOGIC_VECTOR, Named(STD_ULOGIC)),
                                 direction, qfn, width, dims);
            && (|qfn| > 0 && defaultValue.None? ==> r.Ok?)
            && (r.Ok? ==> && r.value.Some? && r.value.value.ptype == Hdl.BIT && r.value.value.width.None?
                          && r.value.value.dimensions == dims + [IntLit(-20)])
  {
    var inner := GetVariable(services, AsWritten, defaultValue, Named(STD_ULOGIC), direction, qfn, None, dims + [IntLit(-20)]);
    assert inner == CreateVar(services, AsWritten, defaultValue, direction, Hdl.BIT, qfn, None, dims + [IntLit(-20)]);
  }
}
