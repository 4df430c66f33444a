/// The values a request carries (decoded JSON or form strings), the
/// truthiness test the views apply to them, and Python's int() on them.
module Values {
  import opened Outcomes

  /** A decoded JSON value. Lists and objects only matter through their size;
      JSON numbers with a fraction are not modelled. */
  datatype Json = Null | Bool(b: bool) | Int(i: int) | Str(s: string) | Composite(size: nat)

  /** Python's `not v`: None, False, 0, "" and empty containers are falsy. */
  predicate Falsy(v: Json) {
    match v
    case Null => true
    case Bool(b) => !b
    case Int(i) => i == 0
    case Str(s) => s == ""
    case Composite(n) => n == 0
  }

  /** How int(v) ends: a value, ValueError (a malformed string), or TypeError
      (None, a list, an object). */
  datatype IntParse = Parsed(n: int) | ValueErr | TypeErr

  predicate IsDigit(ch: char) {
    '0' <= ch <= '9'
  }

  predicate IsDigits(s: string) {
    |s| > 0 && forall i :: 0 <= i < |s| ==> IsDigit(s[i])
  }

  /** The number an all-digit string denotes, read left to right. */
  function DigitsValue(s: string): nat
    requires forall i :: 0 <= i < |s| ==> IsDigit(s[i])
  {
    if s == [] then 0
    else
      assert IsDigit(s[|s| - 1]);
      DigitsValue(s[..|s| - 1]) * 10 + (s[|s| - 1] as int - '0' as int)
  }

  /** int(s) on a string: an optional sign followed by decimal digits. */
  function ParseInt(s: string): (r: Option<int>)
    ensures r.Some? ==> IsDigits(s) || (|s| > 1 && (s[0] == '-' || s[0] == '+') && IsDigits(s[1..]))
    ensures IsDigits(s) ==> r == Some(DigitsValue(s))
    ensures |s| > 1 && (s[0] == '-' || s[0] == '+') && IsDigits(s[1..]) ==>
              r == Some(if s[0] == '-' then -(DigitsValue(s[1..]) as int) else DigitsValue(s[1..]))
  {
    if |s| > 0 && (s[0] == '-' || s[0] == '+') then
      if IsDigits(s[1..]) then
        var n: int := DigitsValue(s[1..]);
        Some(if s[0] == '-' then -n else n)
      else None
    else if IsDigits(s) then Some(DigitsValue(s))
    else None
  }

  /** str(n) for a natural number. */
  function Decimal(n: nat): (r: string)
    ensures IsDigits(r)
  {
    if n < 10 then ['0' + n as char]
    else Decimal(n / 10) + ['0' + (n % 10) as char]
  }

  /** str(i) for an integer. */
  function ShowInt(i: int): string {
    if i < 0 then "-" + Decimal(-i) else Decimal(i)
  }

  lemma {:induction false} DecimalValue(n: nat)
    ensures DigitsValue(Decimal(n)) == n
  {
    if 10 <= n {
      DecimalValue(n / 10);
      var s := Decimal(n);
      assert s[..|s| - 1] == Decimal(n / 10);
    }
  }

  /** int(str(i)) == i. */
  lemma ParseShowInt(i: int)
    ensures ParseInt(ShowInt(i)) == Some(i)
  {
    if i < 0 {
      DecimalValue(-i);
      assert ShowInt(i)[1..] == Decimal(-i);
    } else {
      DecimalValue(i);
    }
  }

  /** int(v) on a decoded JSON value; a bool converts as 0 or 1. */
  function IntOf(v: Json): (r: IntParse)
    ensures v.Int? ==> r == Parsed(v.i)
    ensures v.Bool? ==> r == Parsed(if v.b then 1 else 0)
    ensures v.Str? ==> (r.Parsed? <==> ParseInt(v.s).Some?)
    ensures v.Str? && ParseInt(v.s).Some? ==> r == Parsed(ParseInt(v.s).value)
    ensures r.TypeErr? <==> v.Null? || v.Composite?
  {
    match v
    case Null => TypeErr
    case Bool(b) => Parsed(if b then 1 else 0)
    case Int(i) => Parsed(i)
    case Str(s) => (match ParseInt(s) case Some(n) => Parsed(n) case None => ValueErr)
    case Composite(_) => TypeErr
  }

  /** A number as Python compares it: an int, or a bool as 0 or 1. */
  function NumberOf(v: Json): Option<int> {
    match v
    case Int(i) => Some(i)
    case Bool(b) => Some(if b then 1 else 0)
    case _ => None
  }

  /** Python's a < b on two strings: code point by code point, and a proper
      prefix before the longer string. */
  predicate StrLess(a: string, b: string) {
    if a == [] then b != []
    else if b == [] then false
    else if a[0] != b[0] then a[0] < b[0]
    else StrLess(a[1..], b[1..])
  }

  /** The string order is total: exactly one of a < b, a == b, b < a. */
  lemma {:induction false} StrLessTrichotomy(a: string, b: string)
    ensures StrLess(a, b) || a == b || StrLess(b, a)
    ensures !(StrLess(a, b) && StrLess(b, a))
    ensures !StrLess(a, a)
  {
    if a != [] && b != [] && a[0] == b[0] {
      StrLessTrichotomy(a[1..], b[1..]);
      if a[1..] == b[1..] {
        assert a == [a[0]] + a[1..] && b == [b[0]] + b[1..];
      }
    }
    if a != [] {
      StrLessTrichotomy(a[1..], a[1..]);
    }
  }

  /** The string order is transitive. */
  lemma {:induction false} StrLessTransitive(a: string, b: string, c: string)
    requires StrLess(a, b) && StrLess(b, c)
    ensures StrLess(a, c)
  {
    if a != [] && a[0] == b[0] && b[0] == c[0] {
      StrLessTransitive(a[1..], b[1..], c[1..]);
    }
  }

  /** Python 3's a > b on two decoded values: numbers (ints and bools)
      compare by value and strings by StrLess; any other pair raises
      TypeError, which is None here. */
  function Greater(a: Json, b: Json): (r: Option<bool>)
    ensures r.Some? <==> (NumberOf(a).Some? && NumberOf(b).Some?) || (a.Str? && b.Str?)
    ensures NumberOf(a).Some? && NumberOf(b).Some? ==> r == Some(NumberOf(a).value > NumberOf(b).value)
    ensures a.Str? && b.Str? ==> r == Some(StrLess(b.s, a.s))
  {
    if NumberOf(a).Some? && NumberOf(b).Some? then Some(NumberOf(a).value > NumberOf(b).value)
    else if a.Str? && b.Str? then Some(StrLess(b.s, a.s))
    else None
  }

  /** On digit strings the comparison is not the numeric one: "10" > "9" is
      False although int("10") > int("9"). */
  lemma DigitStringsCompareAsText()
    ensures Greater(Str("10"), Str("9")) == Some(false)
    ensures IntOf(Str("10")) == Parsed(10) && IntOf(Str("9")) == Parsed(9)
  {
    assert StrLess("9", "10") == ('9' < '1');
    assert IsDigits("10") && IsDigits("9");
    assert "10"[..1] == "1" && "1"[..0] == [] && "9"[..0] == [];
  }
}
