/**
 * The two number conversions the codec relies on: strconv.Itoa for
 * non-negative lengths and strconv.ParseInt(s, 10, 64) for length lines.
 * ParseInt follows Go's algorithm: an optional sign, then the digits scanned
 * left to right, where a non-digit is a syntax error and the running value
 * passing 2^64 - 1 is a range error (whichever comes first), and finally the
 * int64 bound.
 */
module Decimal {
  import opened Bytes
  import opened Wrappers

  const MaxInt64: int := 0x7fff_ffff_ffff_ffff
  const MinInt64: int := -0x8000_0000_0000_0000
  const MaxUint64: int := 0xffff_ffff_ffff_ffff

  const Zero: byte := 48   // '0'
  const Plus: byte := 43   // '+'
  const Minus: byte := 45  // '-'

  /** strconv.ErrSyntax and strconv.ErrRange. */
  datatype NumError = ErrSyntax | ErrRange

  predicate IsDigit(c: byte) {
    48 <= c <= 57
  }

  function DigitValue(c: byte): (d: int) {
    c - 48
  }

  function Digit(d: nat): (c: byte)
    requires d < 10
    ensures IsDigit(c) && DigitValue(c) == d
  {
    48 + d
  }

  ghost predicate AllDigits(s: seq<byte>) {
    forall i :: 0 <= i < |s| ==> IsDigit(s[i])
  }

  /** The base-10 value of a digit string, read from its last digit. */
  ghost function DecimalValue(s: seq<byte>): (x: int)
    ensures AllDigits(s) ==> x >= 0
  {
    if s == [] then 0
    else
      assert AllDigits(s) ==> AllDigits(s[..|s| - 1]);
      DecimalValue(s[..|s| - 1]) * 10 + DigitValue(s[|s| - 1])
  }

  /** strconv.Itoa on a non-negative int: canonical decimal digits. */
  function Itoa(n: nat): (s: seq<byte>)
    ensures 1 <= |s|
    ensures AllDigits(s)
    ensures |s| > 1 ==> s[0] != Zero
  {
    if n < 10 then [Digit(n)] else Itoa(n / 10) + [Digit(n % 10)]
  }

  /** The digit loop of strconv.ParseUint for base 10 and bit size 64. */
  function ScanDigits(s: seq<byte>, i: nat, acc: nat): (r: Result<nat, NumError>)
    requires i <= |s|
    decreases |s| - i
  {
    if i == |s| then Success(acc)
    else if !IsDigit(s[i]) then Failure(ErrSyntax)
    else if acc * 10 + DigitValue(s[i]) > MaxUint64 then Failure(ErrRange)
    else ScanDigits(s, i + 1, acc * 10 + DigitValue(s[i]))
  }

  /** strconv.ParseUint(s, 10, 64). */
  function ParseUint(s: seq<byte>): (r: Result<nat, NumError>) {
    if s == [] then Failure(ErrSyntax) else ScanDigits(s, 0, 0)
  }

  /** strconv.ParseInt(s, 10, 64). */
  function ParseInt(s: seq<byte>): (r: Result<int, NumError>)
    ensures r.Success? ==> MinInt64 <= r.value <= MaxInt64
  {
    if s == [] then Failure(ErrSyntax)
    else
      var neg := s[0] == Minus;
      var digits := if s[0] == Plus || s[0] == Minus then s[1..] else s;
      match ParseUint(digits)
      case Failure(e) => Failure(e)
      case Success(u) =>
        if !neg && u > MaxInt64 then Failure(ErrRange)
        else if neg && u > -MinInt64 then Failure(ErrRange)
        else
          var x: int := if neg then -(u as int) else u;
          Success(x)
  }

  /** `s` with one leading sign removed, if it has one. */
  ghost function Unsigned(s: seq<byte>): (digits: seq<byte>) {
    if |s| > 0 && (s[0] == Plus || s[0] == Minus) then s[1..] else s
  }

  /** `s` is an optional sign and at least one digit, denoting the int64 `x`. */
  ghost predicate IsInt64Text(s: seq<byte>, x: int) {
    var d := Unsigned(s);
    && |d| > 0
    && AllDigits(d)
    && MinInt64 <= x <= MaxInt64
    && x == (if |s| > 0 && s[0] == Minus then -DecimalValue(d) else DecimalValue(d))
  }

  lemma {:induction false} PrefixValueBounded(s: seq<byte>, j: nat)
    requires AllDigits(s) && j <= |s|
    ensures 0 <= DecimalValue(s[..j]) <= DecimalValue(s)
    decreases |s|
  {
    if j < |s| {
      var t := s[..|s| - 1];
      assert AllDigits(t);
      assert t[..j] == s[..j];
      PrefixValueBounded(t, j);
    } else {
      assert s[..j] == s;
    }
  }

  /** The digit loop succeeds exactly on all-digit strings whose value fits in 64 bits. */
  lemma {:induction false} ScanDigitsIff(s: seq<byte>, i: nat, u: int)
    requires i <= |s| && AllDigits(s[..i])
    requires DecimalValue(s[..i]) <= MaxUint64
    ensures DecimalValue(s[..i]) >= 0
    ensures ScanDigits(s, i, DecimalValue(s[..i])) == Success(u)
            <==> AllDigits(s) && DecimalValue(s) == u && u <= MaxUint64
    decreases |s| - i
  {
    var acc := DecimalValue(s[..i]);
    if i == |s| {
      assert s[..i] == s;
    } else if !IsDigit(s[i]) {
      assert !AllDigits(s);
    } else {
      var next := acc * 10 + DigitValue(s[i]);
      assert s[..i + 1][..i] == s[..i];
      assert DecimalValue(s[..i + 1]) == next;
      assert AllDigits(s[..i + 1]);
      if next > MaxUint64 {
        if AllDigits(s) {
          PrefixValueBounded(s, i + 1);
        }
      } else {
        ScanDigitsIff(s, i + 1, u);
      }
    }
  }

  /** ParseInt returns x exactly when the text is a base-10 int64 denoting x. */
  lemma ParseIntIff(s: seq<byte>, x: int)
    ensures ParseInt(s) == Success(x) <==> IsInt64Text(s, x)
  {
    if s != [] {
      var d := Unsigned(s);
      assert d[..0] == [];
      if d != [] {
        match ParseUint(d)
        case Success(u) =>
          ScanDigitsIff(d, 0, u);
        case Failure(_) =>
          if AllDigits(d) {
            PrefixValueBounded(d, |d|);
            assert d[..|d|] == d;
            ScanDigitsIff(d, 0, DecimalValue(d));
          }
      }
    }
  }

  lemma {:induction false} ItoaValue(n: nat)
    ensures DecimalValue(Itoa(n)) == n
  {
    if n >= 10 {
      var s := Itoa(n);
      assert s[..|s| - 1] == Itoa(n / 10);
      ItoaValue(n / 10);
    }
  }

  /** ParseInt inverts Itoa on every non-negative int64. */
  lemma ParseItoa(n: nat)
    requires n <= MaxInt64
    ensures ParseInt(Itoa(n)) == Success(n)
  {
    ItoaValue(n);
    ParseIntIff(Itoa(n), n);
  }
}
