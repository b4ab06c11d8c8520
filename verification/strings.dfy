/** Text helpers the translator takes from the Java library: joining and
    splitting, ASCII lower-casing, and conversion between integers and their
    digit strings (Integer.toString, new BigInteger(text, radix)). */
module Strings {
  import opened Wrappers

  /** Joins the parts with the separator between consecutive parts, as
      HDLQualifiedName.toString(char) does. */
  function Join(parts: seq<string>, sep: char): (r: string)
    ensures |parts| == 1 ==> r == parts[0]
    ensures |parts| == 0 ==> r == ""
  {
    if |parts| == 0 then ""
    else if |parts| == 1 then parts[0]
    else parts[0] + [sep] + Join(parts[1..], sep)
  }

  /** Every maximal run of non-separator characters, including empty runs:
      the pieces String.split produces before trailing empty pieces are
      dropped. */
  function Pieces(s: string, sep: char): (r: seq<string>)
    ensures |r| >= 1
    ensures forall i :: 0 <= i < |r| ==> sep !in r[i]
    decreases |s|
  {
    if |s| == 0 then [""]
    else
      var rest := Pieces(s[1..], sep);
      if s[0] == sep then [""] + rest
      else [[s[0]] + rest[0]] + rest[1..]
  }

  lemma JoinCons(head: string, rest: seq<string>, sep: char)
    requires |rest| >= 1
    ensures Join([head] + rest, sep) == head + [sep] + Join(rest, sep)
  {
    assert ([head] + rest)[1..] == rest;
  }

  /** Splitting at every separator and joining the pieces back gives the
      original text. */
  lemma {:induction false} JoinPieces(s: string, sep: char)
    ensures Join(Pieces(s, sep), sep) == s
    decreases |s|
  {
    if |s| > 0 {
      var rest := Pieces(s[1..], sep);
      JoinPieces(s[1..], sep);
      assert s == [s[0]] + s[1..];
      if s[0] == sep {
        JoinCons("", rest, sep);
      } else if |rest| == 1 {
        assert Pieces(s, sep) == [[s[0]] + rest[0]];
      } else {
        assert rest == [rest[0]] + rest[1..];
        JoinCons(rest[0], rest[1..], sep);
        JoinCons([s[0]] + rest[0], rest[1..], sep);
      }
    }
  }

  /** Drops the empty pieces at the end of the list. */
  function DropTrailingEmpty(ps: seq<string>): (r: seq<string>)
    ensures |r| <= |ps| && r == ps[..|r|]
    ensures |r| > 0 ==> r[|r| - 1] != ""
    ensures forall i :: |r| <= i < |ps| ==> ps[i] == ""
  {
    if |ps| == 0 then []
    else if ps[|ps| - 1] == "" then DropTrailingEmpty(ps[..|ps| - 1])
    else ps
  }

  /** String.split on a one-character separator with the default limit:
      when the separator does not occur the whole string is the one piece
      (even the empty string); otherwise trailing empty pieces are removed. */
  function Split(s: string, sep: char): (r: seq<string>)
    ensures forall i :: 0 <= i < |r| ==> sep !in r[i]
    ensures sep !in s ==> r == [s]
    ensures sep in s ==> r == DropTrailingEmpty(Pieces(s, sep))
  {
    if sep !in s then
      SinglePiece(s, sep);
      [s]
    else DropTrailingEmpty(Pieces(s, sep))
  }

  lemma {:induction false} SinglePiece(s: string, sep: char)
    requires sep !in s
    ensures Pieces(s, sep) == [s]
    decreases |s|
  {
    if |s| > 0 {
      assert sep !in s[1..] by {
        forall i | 0 <= i < |s[1..]| ensures s[1..][i] != sep {
          assert s[1..][i] == s[i + 1];
        }
      }
      SinglePiece(s[1..], sep);
      assert s == [s[0]] + s[1..];
    }
  }

  /** A piece ended by a separator is split off as it is. */
  lemma {:induction false} PiecesCons(a: string, b: string, sep: char)
    requires sep !in a
    ensures Pieces(a + [sep] + b, sep) == [a] + Pieces(b, sep)
    decreases |a|
  {
    var s := a + [sep] + b;
    if |a| == 0 {
      assert s[1..] == b;
    } else {
      assert s[1..] == a[1..] + [sep] + b;
      assert sep !in a[1..] by {
        forall i | 0 <= i < |a[1..]| ensures a[1..][i] != sep {
          assert a[1..][i] == a[i + 1];
        }
      }
      PiecesCons(a[1..], b, sep);
      assert [a[0]] + a[1..] == a;
    }
  }

  /** Joining parts free of the separator and cutting at every separator
      gives the parts back. */
  lemma {:induction false} PiecesJoin(parts: seq<string>, sep: char)
    requires |parts| >= 1
    requires forall i :: 0 <= i < |parts| ==> sep !in parts[i]
    ensures Pieces(Join(parts, sep), sep) == parts
  {
    if |parts| == 1 {
      SinglePiece(parts[0], sep);
    } else {
      JoinCons(parts[0], parts[1..], sep);
      assert parts == [parts[0]] + parts[1..];
      PiecesJoin(parts[1..], sep);
      PiecesCons(parts[0], Join(parts[1..], sep), sep);
    }
  }

  /** String.split undoes Join when no part holds the separator and, for
      more than one part, the last part is not empty (Java drops trailing
      empty pieces). */
  lemma SplitJoin(parts: seq<string>, sep: char)
    requires |parts| >= 1
    requires forall i :: 0 <= i < |parts| ==> sep !in parts[i]
    requires |parts| == 1 || parts[|parts| - 1] != ""
    ensures Split(Join(parts, sep), sep) == parts
  {
    PiecesJoin(parts, sep);
    if |parts| > 1 {
      JoinCons(parts[0], parts[1..], sep);
      assert Join(parts, sep)[|parts[0]|] == sep;
    }
  }

  predicate StartsWith(s: string, prefix: string) {
    |prefix| <= |s| && s[..|prefix|] == prefix
  }

  predicate EndsWith(s: string, suffix: string) {
    |suffix| <= |s| && s[|s| - |suffix|..] == suffix
  }

  function LowerChar(c: char): (r: char)
    ensures 'A' <= c <= 'Z' ==> r as int == c as int + 32
    ensures !('A' <= c <= 'Z') ==> r == c
  {
    if 'A' <= c <= 'Z' then (c as int + 32) as char else c
  }

  /** String.toLowerCase restricted to the ASCII letters, which is all the
      enumeration constant names it is applied to contain. */
  function ToLower(s: string): (r: string)
    ensures |r| == |s|
    ensures forall i :: 0 <= i < |s| ==> r[i] == LowerChar(s[i])
  {
    if |s| == 0 then "" else [LowerChar(s[0])] + ToLower(s[1..])
  }

  // ----- integers and their digit strings -----

  function DigitChar(d: nat): (c: char)
    requires d < 10
  {
    ('0' as int + d) as char
  }

  /** The value of one digit character in radix 36, as Character.digit. */
  function DigitValue(c: char): (r: Option<nat>)
    ensures r.Some? ==> r.value < 36
  {
    if '0' <= c <= '9' then Some(c as int - '0' as int)
    else if 'a' <= c <= 'z' then Some(c as int - 'a' as int + 10)
    else if 'A' <= c <= 'Z' then Some(c as int - 'A' as int + 10)
    else None
  }

  function NatToString(n: nat): (r: string)
    ensures |r| >= 1
    ensures forall i :: 0 <= i < |r| ==> '0' <= r[i] <= '9'
  {
    if n < 10 then [DigitChar(n)] else NatToString(n / 10) + [DigitChar(n % 10)]
  }

  /** Integer.toString / BigInteger.toString in radix 10. */
  function IntToString(n: int): (r: string)
    ensures |r| >= 1
    ensures n < 0 <==> r[0] == '-'
  {
    if n < 0 then "-" + NatToString(-n) else NatToString(n)
  }

  /** The value of a digit string with one more digit at its end. */
  function AppendDigit(hi: nat, radix: nat, d: nat): nat {
    hi * radix + d
  }

  /** The value of a non-empty digit string in the given radix, absent when a
      character is not a digit of that radix. */
  function ParseDigits(s: string, radix: nat): (r: Option<nat>)
    requires 2 <= radix <= 36
    ensures |s| == 0 ==> r == Some(0)
  {
    if |s| == 0 then Some(0)
    else
      var hi := ParseDigits(s[..|s| - 1], radix);
      var d := DigitValue(s[|s| - 1]);
      if hi.Some? && d.Some? && d.value < radix then Some(AppendDigit(hi.value, radix, d.value)) else None
  }

  /** new BigInteger(text, radix): an optional sign followed by at least one
      digit; anything else is a NumberFormatException, here None. */
  function ParseInt(s: string, radix: nat): (r: Option<int>)
    requires 2 <= radix <= 36
    ensures |s| == 0 ==> r.None?
  {
    if |s| == 0 then None
    else if s[0] == '-' || s[0] == '+' then
      if |s| == 1 then None
      else
        match ParseDigits(s[1..], radix)
        case Some(v) => var x: int := v; Some(if s[0] == '-' then -x else x)
        case None => None
    else
      match ParseDigits(s, radix)
      case Some(v) => Some(v)
      case None => None
  }

  lemma {:induction false} ParseNatToString(n: nat)
    ensures ParseDigits(NatToString(n), 10) == Some(n)
  {
    var s := NatToString(n);
    if n < 10 {
      assert s[..|s| - 1] == "";
    } else {
      ParseNatToString(n / 10);
      assert s[..|s| - 1] == NatToString(n / 10);
      assert s[|s| - 1] == DigitChar(n % 10);
    }
  }

  /** Printing an integer and parsing the text back gives the integer. */
  lemma IntToStringRoundTrip(n: int)
    ensures ParseInt(IntToString(n), 10) == Some(n)
  {
    var s := IntToString(n);
    if n < 0 {
      var digits := NatToString(-n);
      assert s == "-" + digits;
      assert s[1..] == digits;
      ParseNatToString(-n);
      ParseSigned(s, 10);
    } else {
      ParseNatToString(n);
      ParseUnsigned(s, 10);
    }
  }

  lemma ParseSigned(s: string, radix: nat)
    requires 2 <= radix <= 36
    requires |s| >= 2 && s[0] == '-' && ParseDigits(s[1..], radix).Some?
    ensures ParseInt(s, radix) == Some(-(ParseDigits(s[1..], radix).value as int))
  {
  }

  lemma ParseUnsigned(s: string, radix: nat)
    requires 2 <= radix <= 36
    requires |s| >= 1 && s[0] != '-' && s[0] != '+' && ParseDigits(s, radix).Some?
    ensures ParseInt(s, radix) == Some(ParseDigits(s, radix).value as int)
  {
  }
}
