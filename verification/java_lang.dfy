/**
 The pieces of the Java platform the loader leans on, written out: nullable
 strings and their string conversion, the run-time exceptions a load can raise,
 `String.split(" ")`, and the decimal conversions `Integer.parseInt` and
 `"" + i` (Integer.toString).
 */
module JavaLang {
  import opened Wrappers

  /** A `String` reference: either null or a character sequence. */
  datatype JString = Null | Str(chars: string)

  /** String conversion as `+` performs it (section 5.1.11 of the Java
      Language Specification): a null reference becomes the text "null". */
  function Text(s: JString): string
  {
    match s
    case Null => "null"
    case Str(chars) => chars
  }

  /** The unchecked exceptions a load can raise; any of them aborts the load. */
  datatype Exception =
    | NumberFormat(input: JString)               // Integer.parseInt refused its argument
    | NegativeArraySize(size: int)               // `new String[n]` with n < 0
    | IndexOutOfBounds(index: int, length: int)  // an array access outside [0, length)

  const MinInt: int := -0x8000_0000
  const MaxInt: int := 0x7fff_ffff

  predicate IsInt32(v: int)
  {
    MinInt <= v <= MaxInt
  }

  // ---------------------------------------------------------------------------
  // Decimal numerals
  // ---------------------------------------------------------------------------

  predicate IsDigit(c: char)
  {
    '0' <= c <= '9'
  }

  predicate AllDigits(s: string)
  {
    forall k :: 0 <= k < |s| ==> IsDigit(s[k])
  }

  function DigitChar(d: nat): (c: char)
    requires d < 10
    ensures IsDigit(c)
    ensures c as int - '0' as int == d
  {
    ('0' as int + d) as char
  }

  function DigitValue(c: char): (d: nat)
    requires IsDigit(c)
    ensures d < 10
  {
    c as int - '0' as int
  }

  /** The decimal numeral of `n`, without leading zeros. */
  function NatToDecimal(n: nat): (s: string)
    ensures 1 <= |s|
    ensures AllDigits(s)
    decreases n
  {
    if n < 10 then [DigitChar(n)] else NatToDecimal(n / 10) + [DigitChar(n % 10)]
  }

  /** `"" + i` for an `int` i: a minus sign for negative values, then the digits. */
  function IntToDecimal(i: int): (s: string)
    ensures 1 <= |s|
    ensures ' ' !in s && ':' !in s
    ensures s[0] == '-' <==> i < 0
  {
    if i < 0 then "-" + NatToDecimal(-i) else NatToDecimal(i)
  }

  /** The value a string of decimal digits denotes (most significant digit first). */
  function DecimalValue(s: string): nat
    requires AllDigits(s)
    decreases |s|
  {
    if |s| == 0 then 0 else DecimalValue(s[..|s| - 1]) * 10 + DigitValue(s[|s| - 1])
  }

  /** Reading back the numeral of `n` gives `n`. */
  lemma {:induction false} DecimalValueOfNatToDecimal(n: nat)
    ensures DecimalValue(NatToDecimal(n)) == n
    decreases n
  {
    if n >= 10 {
      var s := NatToDecimal(n);
      assert s[..|s| - 1] == NatToDecimal(n / 10);
      DecimalValueOfNatToDecimal(n / 10);
    }
  }

  /** Distinct naturals have distinct numerals. */
  lemma NatToDecimalInjective(m: nat, n: nat)
    ensures NatToDecimal(m) == NatToDecimal(n) <==> m == n
  {
    DecimalValueOfNatToDecimal(m);
    DecimalValueOfNatToDecimal(n);
  }

  /** Distinct integers have distinct decimal texts. */
  lemma IntToDecimalInjective(i: int, j: int)
    ensures IntToDecimal(i) == IntToDecimal(j) <==> i == j
  {
    var s, t := IntToDecimal(i), IntToDecimal(j);
    if s == t {
      assert i < 0 <==> j < 0;
      if i < 0 {
        assert s[1..] == NatToDecimal(-i) && t[1..] == NatToDecimal(-j);
        NatToDecimalInjective(-i, -j);
      } else {
        NatToDecimalInjective(i, j);
      }
    }
  }

  /** `Integer.parseInt(s)` in radix 10: an optional '+' or '-', then at least
      one digit, and the value must fit in 32 bits; anything else is `None`
      (the caller raises NumberFormatException). */
  function ParseInt(s: string): (r: Option<int>)
    ensures r.Some? ==> IsInt32(r.value)
    ensures r.Some? ==> 1 <= |s| && (IsDigit(s[0]) || s[0] == '-' || s[0] == '+')
    ensures r.Some? && r.value < 0 ==> s[0] == '-'
    ensures r.Some? ==> (IsDigit(s[0]) || 2 <= |s|) && forall k :: 1 <= k < |s| ==> IsDigit(s[k])
  {
    if |s| == 0 then None
    else
      var digits := if s[0] == '-' || s[0] == '+' then s[1..] else s;
      if |digits| == 0 || !AllDigits(digits) then None
      else
        var v: int := if s[0] == '-' then -(DecimalValue(digits) as int) else DecimalValue(digits);
        if IsInt32(v) then Some(v) else None
  }

  /** parseInt reads back what `"" + i` writes, for every 32-bit `i`. */
  lemma ParseIntOfIntToDecimal(i: int)
    requires IsInt32(i)
    ensures ParseInt(IntToDecimal(i)) == Some(i)
  {
    var s := IntToDecimal(i);
    if i < 0 {
      assert s[1..] == NatToDecimal(-i);
      DecimalValueOfNatToDecimal(-i);
    } else {
      DecimalValueOfNatToDecimal(i);
    }
  }

  /** A digit string without a leading zero denotes a positive value. */
  lemma {:induction false} DecimalValuePositive(s: string)
    requires 1 <= |s| && AllDigits(s) && s[0] != '0'
    ensures 1 <= DecimalValue(s)
    decreases |s|
  {
    if 1 < |s| {
      DecimalValuePositive(s[..|s| - 1]);
    }
  }

  /** The numeral of the value of a digit string without leading zeros is
      that digit string. */
  lemma {:induction false} NatToDecimalOfDecimalValue(s: string)
    requires 1 <= |s| && AllDigits(s)
    requires s[0] != '0' || |s| == 1
    ensures NatToDecimal(DecimalValue(s)) == s
    decreases |s|
  {
    var n := DecimalValue(s);
    if |s| == 1 {
      assert DecimalValue(s[..0]) == 0;
      assert n == DigitValue(s[0]);
      assert NatToDecimal(n) == [DigitChar(n)];
    } else {
      var init := s[..|s| - 1];
      DecimalValuePositive(init);
      assert n / 10 == DecimalValue(init) && n % 10 == DigitValue(s[|s| - 1]);
      NatToDecimalOfDecimalValue(init);
      assert init + [s[|s| - 1]] == s;
    }
  }

  /** A numeral that parseInt accepts and that is written the canonical way
      (no '+', no leading zero, no "-0") is exactly what `"" + i` writes for
      its value: the converse of ParseIntOfIntToDecimal. */
  lemma ParseIntCanonical(s: string)
    requires ParseInt(s).Some?
    requires IsDigit(s[0]) ==> s[0] != '0' || |s| == 1
    requires s[0] == '-' ==> 2 <= |s| && s[1] != '0'
    requires s[0] != '+'
    ensures s == IntToDecimal(ParseInt(s).value)
  {
    if s[0] == '-' {
      var digits := s[1..];
      NatToDecimalOfDecimalValue(digits);
      DecimalValuePositive(digits);
      assert "-" + digits == s;
    } else {
      NatToDecimalOfDecimalValue(s);
    }
  }

  // ---------------------------------------------------------------------------
  // String.split(" ")
  // ---------------------------------------------------------------------------

  /** Every substring delimited by a single space, empty ones included. */
  function Pieces(s: string): (r: seq<string>)
    ensures 1 <= |r|
    ensures forall k :: 0 <= k < |r| ==> ' ' !in r[k]
    decreases |s|
  {
    if |s| == 0 then [""]
    else
      var rest := Pieces(s[1..]);
      if s[0] == ' ' then [""] + rest else [[s[0]] + rest[0]] + rest[1..]
  }

  /** The inverse direction: glue pieces back together with single spaces. */
  function JoinWithSpaces(ps: seq<string>): string
    requires 1 <= |ps|
    decreases |ps|
  {
    if |ps| == 1 then ps[0] else ps[0] + " " + JoinWithSpaces(ps[1..])
  }

  /** Cutting at the spaces loses nothing. */
  lemma {:induction false} JoinWithSpacesOfPieces(s: string)
    ensures JoinWithSpaces(Pieces(s)) == s
    decreases |s|
  {
    if |s| > 0 {
      var rest := Pieces(s[1..]);
      JoinWithSpacesOfPieces(s[1..]);
      if s[0] == ' ' {
        assert ([""] + rest)[1..] == rest;
      } else if |rest| == 1 {
        assert [s[0]] + s[1..] == s;
      } else {
        var ps := [[s[0]] + rest[0]] + rest[1..];
        assert ps[1..] == rest[1..];
        assert JoinWithSpaces(rest) == rest[0] + " " + JoinWithSpaces(rest[1..]);
        assert [s[0]] + s[1..] == s;
      }
    }
  }

  lemma {:induction false} PiecesOfSpaceFree(a: string)
    requires ' ' !in a
    ensures Pieces(a) == [a]
    decreases |a|
  {
    if |a| > 0 {
      PiecesOfSpaceFree(a[1..]);
      assert [a[0]] + a[1..] == a;
    }
  }

  lemma {:induction false} PiecesAfterSpace(a: string, b: string)
    requires ' ' !in a
    ensures Pieces(a + " " + b) == [a] + Pieces(b)
    decreases |a|
  {
    var s := a + " " + b;
    if |a| == 0 {
      assert s[1..] == b;
    } else {
      assert s[1..] == a[1..] + " " + b;
      PiecesAfterSpace(a[1..], b);
      assert [a[0]] + a[1..] == a;
    }
  }

  /** Cutting space-free pieces glued with spaces gives the pieces back. */
  lemma {:induction false} PiecesOfJoinWithSpaces(ps: seq<string>)
    requires 1 <= |ps|
    requires forall k :: 0 <= k < |ps| ==> ' ' !in ps[k]
    ensures Pieces(JoinWithSpaces(ps)) == ps
    decreases |ps|
  {
    if |ps| == 1 {
      PiecesOfSpaceFree(ps[0]);
    } else {
      PiecesOfJoinWithSpaces(ps[1..]);
      PiecesAfterSpace(ps[0], JoinWithSpaces(ps[1..]));
    }
  }

  /** Drop the empty strings at the end of `ps`. */
  function DropTrailingEmpty(ps: seq<string>): (r: seq<string>)
    ensures |r| <= |ps| && r == ps[..|r|]
    ensures |r| == 0 || r[|r| - 1] != ""
    ensures forall k :: |r| <= k < |ps| ==> ps[k] == ""
    decreases |ps|
  {
    if |ps| > 0 && ps[|ps| - 1] == "" then DropTrailingEmpty(ps[..|ps| - 1]) else ps
  }

  /** `s.split(" ")`: a string without a space comes back whole (even the empty
      string); otherwise the space-delimited pieces, minus trailing empty ones. */
  function Split(s: string): (r: seq<string>)
    ensures forall k :: 0 <= k < |r| ==> ' ' !in r[k]
    ensures ' ' !in s ==> r == [s]
  {
    if ' ' !in s then [s] else DropTrailingEmpty(Pieces(s))
  }

  /** Splitting a line made of at least two space-free fields, the last one
      non-empty, gives the fields back. */
  lemma SplitOfJoinWithSpaces(ps: seq<string>)
    requires 2 <= |ps|
    requires forall k :: 0 <= k < |ps| ==> ' ' !in ps[k]
    requires ps[|ps| - 1] != ""
    ensures Split(JoinWithSpaces(ps)) == ps
  {
    var s := JoinWithSpaces(ps);
    assert s == ps[0] + " " + JoinWithSpaces(ps[1..]);
    assert s[|ps[0]|] == ' ';
    PiecesOfJoinWithSpaces(ps);
  }
}
