/** How an HDLLiteral becomes a VHDL literal: plain numbers stay decimal while
    they fit a Java int, hex and binary literals keep their based form while
    they fit 32 bits, and everything wider becomes a literal of explicit width.
    The widths are BigInteger.bitLength, which counts the bits of the two's
    complement form without its sign bit. */
module Literals {
  import opened Wrappers
  import Hdl
  import Strings
  import opened Vhdl

  /** 2 to the power k. */
  function Pow2(k: nat): (r: int)
    ensures r > 0
  {
    if k == 0 then 1 else 2 * Pow2(k - 1)
  }

  /** The number of bits of a non-negative number, without a sign bit. */
  function NatBitLength(n: nat): nat {
    if n == 0 then 0 else 1 + NatBitLength(n / 2)
  }

  /** BigInteger.bitLength: a negative number has the length of its one's
      complement. */
  function BitLength(n: int): nat {
    if n < 0 then NatBitLength(-n - 1) else NatBitLength(n)
  }

  lemma {:induction false} NatBitLengthBound(n: nat, k: nat)
    ensures NatBitLength(n) <= k <==> n < Pow2(k)
  {
    if n != 0 && k != 0 {
      NatBitLengthBound(n / 2, k - 1);
    }
  }

  /** A number has at most k bits (plus sign) exactly when it lies in the
      range of a (k+1)-bit two's complement integer. */
  lemma BitLengthBound(n: int, k: nat)
    ensures BitLength(n) <= k <==> -Pow2(k) <= n < Pow2(k)
  {
    if n < 0 {
      NatBitLengthBound(-n - 1, k);
    } else {
      NatBitLengthBound(n, k);
    }
  }

  /** toVHDL(HDLLiteral, length, asString).  A null value that the code
      dereferences is a NullPointer fault; dropping the two-character prefix
      from a shorter text is an IndexOutOfBounds fault. */
  function Encode(lit: Hdl.Literal, length: int, asString: bool): Result<VExpr> {
    var l := if length == 0 then 1 else length;
    match lit.presentation
    case Some(Str) => Ok(StringLit(lit.text))
    case Some(Bool) => Ok(BoolLit(lit.text == "true"))
    case Some(Hex) =>
      if lit.value.None? then Err(NullPointer)
      else if asString || BitLength(lit.value.value) > 32 then Ok(HexLit(l, lit.value.value))
      else if |lit.text| < 2 then Err(IndexOutOfBounds)
      else Ok(BasedLit("16#" + lit.text[2..] + "#"))
    case Some(Bin) =>
      if lit.value.None? then Err(NullPointer)
      else if asString || BitLength(lit.value.value) > 32 then Ok(BinaryLit(l, lit.value.value))
      else if |lit.text| < 2 then Err(IndexOutOfBounds)
      else Ok(BasedLit("2#" + lit.text[2..] + "#"))
    case _ =>
      if lit.value.None? then Err(NullPointer)
      else if BitLength(lit.value.value) > 31 || asString then Ok(BinaryLit(l, lit.value.value))
      else Ok(DecimalLit(lit.text))
  }

  /** _toVHDL(HDLLiteral): the requested width is the value's own bit length,
      or -1 when the literal has no value. */
  function Lower(lit: Hdl.Literal): Result<VExpr> {
    Encode(lit, if lit.value.Some? then BitLength(lit.value.value) else -1, false)
  }

  /** Encoding fails exactly when a numeric presentation has no value, or a
      short hex or binary text would be cut in its based form; string and
      boolean literals never fail, and nothing else does. */
  lemma EncodeFaults(lit: Hdl.Literal, length: int, asString: bool)
    ensures Encode(lit, length, asString).Err? <==>
              || (lit.presentation !in {Some(Hdl.Str), Some(Hdl.Bool)} && lit.value.None?)
              || (lit.presentation in {Some(Hdl.Hex), Some(Hdl.Bin)} && lit.value.Some?
                  && !asString && BitLength(lit.value.value) <= 32 && |lit.text| < 2)
    ensures Encode(lit, length, asString).Err? && lit.value.None? ==> Encode(lit, length, asString).fault == NullPointer
    ensures Encode(lit, length, asString).Err? && lit.value.Some? ==> Encode(lit, length, asString).fault == IndexOutOfBounds
  {
  }

  /** A requested width of zero is a width of one. */
  lemma ZeroWidthIsOne(lit: Hdl.Literal, asString: bool)
    ensures Encode(lit, 0, asString) == Encode(lit, 1, asString)
  {
  }

  /** A number without a hex, binary, string or boolean presentation is
      written as its own decimal text exactly when it is not forced to a
      string and fits a 32-bit Java int; otherwise it becomes a binary literal
      of the requested width (at least one). */
  lemma DecimalThreshold(lit: Hdl.Literal, length: int, asString: bool, v: int)
    requires lit.presentation in {None, Some(Hdl.Num)} && lit.value == Some(v)
    ensures Encode(lit, length, asString) == Ok(DecimalLit(lit.text))
            <==> !asString && -Pow2(31) <= v < Pow2(31)
    ensures Encode(lit, length, asString) != Ok(DecimalLit(lit.text))
            ==> Encode(lit, length, asString) == Ok(BinaryLit(if length == 0 then 1 else length, v))
  {
    BitLengthBound(v, 31);
  }

  /** A hex or binary literal keeps its based form `16#…#` / `2#…#` exactly
      when it is not forced to a string and fits 32 bits plus sign; otherwise
      it becomes a hex or binary literal of the requested width. */
  lemma BasedThreshold(lit: Hdl.Literal, length: int, asString: bool, v: int)
    requires lit.presentation in {Some(Hdl.Hex), Some(Hdl.Bin)} && lit.value == Some(v)
    requires |lit.text| >= 2
    ensures Encode(lit, length, asString).Ok?
    ensures Encode(lit, length, asString).value.BasedLit?
            <==> !asString && -Pow2(32) <= v < Pow2(32)
    ensures Encode(lit, length, asString).value.BasedLit? ==>
              Encode(lit, length, asString).value.based
                == (if lit.presentation == Some(Hdl.Hex) then "16#" else "2#") + lit.text[2..] + "#"
    ensures !Encode(lit, length, asString).value.BasedLit? && lit.presentation == Some(Hdl.Hex) ==>
              Encode(lit, length, asString).value == HexLit(if length == 0 then 1 else length, v)
    ensures !Encode(lit, length, asString).value.BasedLit? && lit.presentation == Some(Hdl.Bin) ==>
              Encode(lit, length, asString).value == BinaryLit(if length == 0 then 1 else length, v)
  {
    BitLengthBound(v, 32);
  }

  /** A literal built from a Java int (HDLLiteral.get) lowers to its decimal
      text, which reads back as the same number. */
  lemma IntLiteralIsDecimal(v: int)
    requires -Pow2(31) <= v < Pow2(31)
    ensures Lower(Hdl.IntLiteral(v)).Ok? && Lower(Hdl.IntLiteral(v)).value.DecimalLit?
    ensures Strings.ParseInt(Lower(Hdl.IntLiteral(v)).value.decimal, 10) == Some(v)
  {
    BitLengthBound(v, 31);
    Strings.IntToStringRoundTrip(v);
  }

  /** The powers that bound a Java int and a 32-bit word. */
  lemma Pow2Words()
    ensures Pow2(31) == 0x8000_0000 && Pow2(32) == 0x1_0000_0000
  {
    assert Pow2(8) == 0x100;
    assert Pow2(16) == 0x1_0000;
    assert Pow2(24) == 0x100_0000;
  }

  /** BigInteger.intValue: the low 32 bits read as a two's complement int. */
  function IntValue(n: int): (r: int)
    ensures -Pow2(31) <= r < Pow2(31)
    ensures (n - r) % Pow2(32) == 0
    ensures -Pow2(31) <= n < Pow2(31) ==> r == n
  {
    Pow2Words();
    var m := n + 0x8000_0000;
    var q := m / 0x1_0000_0000;
    assert m == 0x1_0000_0000 * q + m % 0x1_0000_0000;
    assert n - (m % 0x1_0000_0000 - 0x8000_0000) == 0x1_0000_0000 * q;
    assert 0 <= m < 0x1_0000_0000 ==> m % 0x1_0000_0000 == m;
    m % 0x1_0000_0000 - 0x8000_0000
  }
}
