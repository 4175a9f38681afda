/** Small value types shared by the component models. */
module Common {

  datatype Option<+T> = None | Some(value: T)

  function Min(a: int, b: int): int {
    if a <= b then a else b
  }

  /** Map lookup with a default, as Go's map index and Python's dict.get behave. */
  function GetOr<K, V>(m: map<K, V>, k: K, default: V): V {
    if k in m then m[k] else default
  }

  ghost predicate Sorted(ts: seq<int>) {
    forall i, j :: 0 <= i < j < |ts| ==> ts[i] <= ts[j]
  }

  lemma {:induction false} SubsetSize(a: set<string>, b: set<string>)
    requires a <= b
    ensures |a| <= |b|
  {
    if a != {} {
      var x :| x in a;
      SubsetSize(a - {x}, b - {x});
    }
  }
}

/**
 Decimal text of integers: strconv.FormatInt and fmt's %d on the way out, strconv.ParseInt
 (whole string) and Sscanf's %d (leading integer) on the way in. A failed parse leaves 0.
 */
module Decimal {
  import opened Common

  function DigitChar(d: nat): (c: char)
    requires d < 10
  {
    ('0' as int + d) as char
  }

  predicate IsDigit(c: char) {
    '0' <= c <= '9'
  }

  function DigitValue(c: char): int
    requires IsDigit(c)
  {
    c as int - '0' as int
  }

  function FormatNat(n: nat): (s: string)
    ensures s != [] && forall i :: 0 <= i < |s| ==> IsDigit(s[i])
  {
    if n < 10 then [DigitChar(n)] else FormatNat(n / 10) + [DigitChar(n % 10)]
  }

  function FormatInt(n: int): (s: string) {
    if n < 0 then "-" + FormatNat(-n) else FormatNat(n)
  }

  /** Length of the leading run of digits. */
  function DigitRun(s: string): (n: nat)
    ensures n <= |s|
    ensures forall i :: 0 <= i < n ==> IsDigit(s[i])
    ensures n < |s| ==> !IsDigit(s[n])
  {
    if s == "" || !IsDigit(s[0]) then 0 else 1 + DigitRun(s[1..])
  }

  function NatValue(s: string): int
    requires forall i :: 0 <= i < |s| ==> IsDigit(s[i])
  {
    if s == "" then 0 else 10 * NatValue(s[..|s| - 1]) + DigitValue(s[|s| - 1])
  }

  /** Sscanf(s, "%d", &n) on an n that holds 0: the leading integer, or 0 when there is none. */
  function ScanInt(s: string): int {
    if s != "" && s[0] == ' ' then ScanInt(s[1..])
    else if s != "" && s[0] == '-' then -NatValue(s[1..][..DigitRun(s[1..])])
    else if s != "" && s[0] == '+' then NatValue(s[1..][..DigitRun(s[1..])])
    else NatValue(s[..DigitRun(s)])
  }

  /** strconv.ParseInt(s, 10, 64) with its error ignored; text that is not an integer gives 0. */
  function ParseInt(s: string): int {
    var neg := s != "" && s[0] == '-';
    var body := if s != "" && (s[0] == '-' || s[0] == '+') then s[1..] else s;
    if body == "" || DigitRun(body) != |body| then 0
    else if neg then -NatValue(body) else NatValue(body)
  }

  /** Text that ParseInt reads without error, whatever its size: an optional sign and at least one digit. */
  predicate IsInteger(s: string) {
    var body := if s != "" && (s[0] == '-' || s[0] == '+') then s[1..] else s;
    body != "" && DigitRun(body) == |body|
  }

  lemma {:induction false} NatRoundTrip(n: nat)
    ensures NatValue(FormatNat(n)) == n
  {
    if n >= 10 {
      var s := FormatNat(n);
      NatRoundTrip(n / 10);
      assert s[..|s| - 1] == FormatNat(n / 10);
    }
  }

  /** Both readers invert FormatInt, so a counter or a score survives storage as text. */
  lemma IntRoundTrip(n: int)
    ensures ParseInt(FormatInt(n)) == n
    ensures ScanInt(FormatInt(n)) == n
  {
    var body := FormatNat(if n < 0 then -n else n);
    NatRoundTrip(if n < 0 then -n else n);
    assert DigitRun(body) == |body| && body[..|body|] == body;
    if n < 0 {
      assert FormatInt(n)[1..] == body;
    } else {
      assert IsDigit(body[0]);
    }
  }

  lemma FormatIntIsInteger(n: int)
    ensures IsInteger(FormatInt(n))
  {
    var body := FormatNat(if n < 0 then -n else n);
    NatRoundTrip(if n < 0 then -n else n);
    if n < 0 {
      assert FormatInt(n)[1..] == body;
    } else {
      assert IsDigit(body[0]);
    }
  }

  lemma FormatIntHasNoPipe(n: int)
    ensures '|' !in FormatInt(n)
  {
    var digits := FormatNat(if n < 0 then -n else n);
    assert forall i :: 0 <= i < |digits| ==> IsDigit(digits[i]);
  }
}
