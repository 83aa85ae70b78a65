/** The PHP built-ins that the gymnastics application leans on: `empty()` on a
    string, `is_numeric()` followed by a numeric comparison, `trim()` and the
    `%term%` pattern of a `LIKE` search. */
module Php {

  datatype Option<+T> = None | Some(value: T)

  /** `empty($s)` for a string: true for "" and also for "0". A string is
      falsy in a boolean context (`$s ? 1 : 0`) exactly when it is empty. */
  predicate Empty(s: string)
  {
    s == "" || s == "0"
  }

  predicate IsDigit(c: char)
  {
    '0' <= c <= '9'
  }

  /** One or more decimal digits and nothing else. */
  predicate IsDigits(s: string)
  {
    |s| > 0 && forall i :: 0 <= i < |s| ==> IsDigit(s[i])
  }

  function DigitsValue(s: string): nat
    requires forall i :: 0 <= i < |s| ==> IsDigit(s[i])
  {
    if s == [] then 0
    else
      assert IsDigit(s[|s| - 1]);
      10 * DigitsValue(s[..|s| - 1]) + (s[|s| - 1] as int - '0' as int)
  }

  /** `is_numeric($s)` together with the number PHP then compares: None when
      the string is not numeric. Only integer strings (an optional sign and
      one or more digits) are numeric here. */
  function ParseNumeric(s: string): Option<int>
  {
    if IsDigits(s) then Some(DigitsValue(s))
    else if |s| > 1 && s[0] == '+' && IsDigits(s[1..]) then Some(DigitsValue(s[1..]))
    else if |s| > 1 && s[0] == '-' && IsDigits(s[1..]) then Some(-(DigitsValue(s[1..]) as int))
    else None
  }

  /** The value is numeric and lies in [lo, hi]: the negation of
      `!is_numeric($s) || $s < lo || $s > hi`. */
  predicate NumericWithin(s: string, lo: int, hi: int)
  {
    ParseNumeric(s).Some? && lo <= ParseNumeric(s).value <= hi
  }

  /** The value is numeric and positive: the negation of
      `!is_numeric($s) || $s <= 0`. */
  predicate NumericPositive(s: string)
  {
    ParseNumeric(s).Some? && ParseNumeric(s).value > 0
  }

  /** Decimal text of a natural number, most significant digit first. */
  function DecimalString(n: nat): string
  {
    if n < 10 then [('0' as int + n) as char]
    else DecimalString(n / 10) + [('0' as int + n % 10) as char]
  }

  /** How a form sends an integer: a minus sign for negatives, then the digits. */
  function IntString(n: int): string
  {
    if n < 0 then "-" + DecimalString(-n) else DecimalString(n)
  }

  lemma {:induction false} DecimalStringValue(n: nat)
    ensures IsDigits(DecimalString(n)) && DigitsValue(DecimalString(n)) == n
  {
    if n >= 10 {
      DecimalStringValue(n / 10);
      var s := DecimalString(n);
      assert s[..|s| - 1] == DecimalString(n / 10);
    }
  }

  /** Every integer a form can send is numeric, and reads back as itself. */
  lemma ParseNumericRoundTrip(n: int)
    ensures ParseNumeric(IntString(n)) == Some(n)
  {
    if n < 0 {
      DecimalStringValue(-n);
      assert IntString(n)[1..] == DecimalString(-n);
    } else {
      DecimalStringValue(n);
    }
  }

  /** The characters `trim()` strips by default: space, tab, line feed,
      carriage return, NUL and vertical tab. */
  predicate IsTrimmable(c: char)
  {
    c == ' ' || c == '\t' || c == '\n' || c == '\r' || c == '\0' || c == '\U{0B}'
  }

  /** `ltrim($s)`: the strippable characters removed from the front. */
  function TrimLeft(s: string): string
  {
    if s != [] && IsTrimmable(s[0]) then TrimLeft(s[1..]) else s
  }

  /** `rtrim($s)`: the strippable characters removed from the end. */
  function TrimRight(s: string): string
  {
    if s != [] && IsTrimmable(s[|s| - 1]) then TrimRight(s[..|s| - 1]) else s
  }

  /** `trim($s)`: `s` with its strippable characters removed from both ends. */
  function Trim(s: string): string
  {
    TrimRight(TrimLeft(s))
  }

  /** What ltrim leaves is a suffix that does not start with a strippable
      character, and everything it drops is strippable. */
  lemma {:induction false} TrimLeftSpec(s: string)
    ensures var r := TrimLeft(s);
      |r| <= |s| && r == s[|s| - |r|..]
      && (r == [] || !IsTrimmable(r[0]))
      && forall i :: 0 <= i < |s| - |r| ==> IsTrimmable(s[i])
  {
    if s != [] && IsTrimmable(s[0]) {
      TrimLeftSpec(s[1..]);
    }
  }

  /** What rtrim leaves is a prefix that does not end with a strippable
      character, and everything it drops is strippable. */
  lemma {:induction false} TrimRightSpec(s: string)
    ensures var r := TrimRight(s);
      |r| <= |s| && r == s[..|r|]
      && (r == [] || !IsTrimmable(r[|r| - 1]))
      && forall i :: |r| <= i < |s| ==> IsTrimmable(s[i])
  {
    if s != [] && IsTrimmable(s[|s| - 1]) {
      TrimRightSpec(s[..|s| - 1]);
    }
  }

  /** trim keeps a contiguous middle part of `s` that neither starts nor ends
      with a strippable character, and only strippable characters lie
      outside it. */
  lemma TrimSpec(s: string)
    ensures var r := Trim(s);
      (r == [] || (!IsTrimmable(r[0]) && !IsTrimmable(r[|r| - 1])))
      && exists i | 0 <= i <= |s| - |r| ::
           s[i..][..|r|] == r
           && (forall k :: 0 <= k < i ==> IsTrimmable(s[k]))
           && (forall k :: i + |r| <= k < |s| ==> IsTrimmable(s[k]))
  {
    var l := TrimLeft(s);
    TrimLeftSpec(s);
    TrimRightSpec(l);
    var r := TrimRight(l);
    assert r != [] ==> r[0] == l[0];
    var i := |s| - |l|;
    assert s[i..][..|r|] == r;
  }

  /** Trimming a trimmed string changes nothing. */
  lemma TrimIdempotent(s: string)
    ensures Trim(Trim(s)) == Trim(s)
  {
    var t := Trim(s);
    TrimSpec(s);
    assert TrimLeft(t) == t;
    assert TrimRight(t) == t;
  }

  /** `$hay LIKE '%$needle%'` read as plain substring containment. */
  predicate Contains(hay: string, needle: string)
  {
    exists i | 0 <= i <= |hay| :: needle <= hay[i..]
  }
}
