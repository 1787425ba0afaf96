/** `str::parse` for the integer types the builtins read (`i32`, `i64` and a
    64-bit `usize`), and the decimal rendering it inverts. */
module Decimal {
  import opened Results
  import Text

  datatype IntKind = I32 | I64 | Usize {
    function Min(): int {
      match this
      case I32 => -0x8000_0000
      case I64 => -0x8000_0000_0000_0000
      case Usize => 0
    }

    function Max(): int {
      match this
      case I32 => 0x7FFF_FFFF
      case I64 => 0x7FFF_FFFF_FFFF_FFFF
      case Usize => 0xFFFF_FFFF_FFFF_FFFF
    }

    predicate Signed() {
      this != Usize
    }

    predicate InRange(n: int) {
      Min() <= n <= Max()
    }
  }

  predicate IsDigit(c: char) {
    '0' <= c <= '9'
  }

  predicate AllDigits(s: string) {
    forall k :: 0 <= k < |s| ==> IsDigit(s[k])
  }

  function DigitValue(c: char): nat
    requires IsDigit(c)
  {
    c as int - '0' as int
  }

  function DigitChar(d: nat): (c: char)
    requires d < 10
    ensures IsDigit(c) && DigitValue(c) == d
  {
    ('0' as int + d) as char
  }

  /** The value of a digit string read most significant digit first. */
  function DigitsValue(ds: string): nat
    requires AllDigits(ds)
  {
    if ds == [] then 0
    else DigitsValue(ds[..|ds| - 1]) * 10 + DigitValue(ds[|ds| - 1])
  }

  /** `s.parse::<kind>()`: an optional `+` (or `-` for signed kinds), then one
      or more ASCII digits, and a value inside the kind's range. */
  function ParseInt(s: string, kind: IntKind): (r: Option<int>)
    ensures r.Some? ==> kind.InRange(r.value)
    ensures r.Some? ==> exists k :: 0 <= k < |s| && IsDigit(s[k])
    ensures s == [] || s == "+" || s == "-" ==> r.None?
    ensures (exists k :: 0 <= k < |s| && Text.IsWhitespace(s[k])) ==> r.None?
  {
    if s == [] || s == "+" || s == "-" then None
    else
      var neg := s[0] == '-' && kind.Signed();
      var ds := if s[0] == '+' || neg then s[1..] else s;
      if !AllDigits(ds) then None
      else
        assert IsDigit(ds[0]);
        var v: int := if neg then 0 - DigitsValue(ds) as int else DigitsValue(ds);
        if kind.InRange(v) then Some(v) else None
  }

  /** Decimal digits of a natural number, most significant first. */
  function ShowNat(n: nat): (r: string)
    ensures r != [] && AllDigits(r)
    ensures DigitsValue(r) == n
  {
    if n < 10 then [DigitChar(n)]
    else
      var r := ShowNat(n / 10) + [DigitChar(n % 10)];
      assert r[..|r| - 1] == ShowNat(n / 10);
      r
  }

  /** Larger numbers never have fewer digits. */
  lemma {:induction false} ShowNatLength(a: nat, b: nat)
    requires a <= b
    ensures |ShowNat(a)| <= |ShowNat(b)|
    decreases b
  {
    if a >= 10 {
      ShowNatLength(a / 10, b / 10);
    }
  }

  /** `n.to_string()`. */
  function ShowInt(n: int): string {
    if n < 0 then "-" + ShowNat(-n) else ShowNat(n)
  }

  /** A rendered integer is a non-empty word with no whitespace. */
  lemma ShowIntPlain(n: int)
    ensures ShowInt(n) != [] && Text.NoWhitespace(ShowInt(n))
  {
    var s := ShowInt(n);
    forall k | 0 <= k < |s|
      ensures !Text.IsWhitespace(s[k])
    {
      if n < 0 && k > 0 {
        assert s[k] == ShowNat(-n)[k - 1];
      }
    }
  }

  /** Rendering an in-range value and parsing it back gives the value. */
  lemma ParseShow(n: int, kind: IntKind)
    requires kind.InRange(n)
    ensures ParseInt(ShowInt(n), kind) == Some(n)
  {
    var s := ShowInt(n);
    if n < 0 {
      assert s[1..] == ShowNat(-n);
    }
  }
}
