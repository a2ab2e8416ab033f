/** Decimal text: strconv.Atoi, strconv.ParseInt and fmt's %d. */
module Decimals {
  import opened Wrappers
  import opened Ints

  predicate IsDigit(c: char) { '0' <= c <= '9' }

  predicate IsDigits(s: string)
  {
    |s| > 0 && forall i :: 0 <= i < |s| ==> IsDigit(s[i])
  }

  /** The value of a run of decimal digits (empty run: 0). */
  function DigitsValue(s: string): nat
    requires forall i :: 0 <= i < |s| ==> IsDigit(s[i])
  {
    if |s| == 0 then 0
    else
      assert IsDigit(s[|s| - 1]);
      10 * DigitsValue(s[..|s| - 1]) + (s[|s| - 1] as int - '0' as int) as nat
  }

  /** Decimal syntax accepted by strconv.Atoi and strconv.ParseInt(s, 10, _):
      an optional sign, then one or more digits. */
  function ParseDecimal(s: string): Option<int>
  {
    if |s| > 0 && (s[0] == '+' || s[0] == '-') then
      if IsDigits(s[1..]) then
        var v: int := DigitsValue(s[1..]);
        Some(if s[0] == '-' then -v else v)
      else None
    else if IsDigits(s) then Some(DigitsValue(s))
    else None
  }

  /** strconv.Atoi on a 64-bit int: a range error beyond int64. */
  function Atoi(s: string): (r: Option<int>)
    ensures r.Some? ==> IsInt64(r.value) && ParseDecimal(s) == r
  {
    match ParseDecimal(s)
    case Some(v) => if IsInt64(v) then Some(v) else None
    case None => None
  }

  /** strconv.ParseInt(s, 10, 32): a range error beyond int32. */
  function ParseInt32(s: string): (r: Option<int>)
    ensures r.Some? ==> IsInt32(r.value) && ParseDecimal(s) == r
  {
    match ParseDecimal(s)
    case Some(v) => if IsInt32(v) then Some(v) else None
    case None => None
  }

  /** Decimal rendering of a natural number (strconv.Itoa). */
  function NatStr(n: nat): (r: string)
    ensures IsDigits(r)
  {
    if n < 10 then [(n + '0' as int) as char] else NatStr(n / 10) + [((n % 10) + '0' as int) as char]
  }

  /** Parsing inverts rendering. */
  lemma {:induction false} DigitsValueOfNatStr(n: nat)
    ensures DigitsValue(NatStr(n)) == n
  {
    if n >= 10 {
      var s := NatStr(n);
      assert s[..|s| - 1] == NatStr(n / 10);
      DigitsValueOfNatStr(n / 10);
    }
  }

  lemma ParseDecimalOfNatStr(n: nat)
    ensures ParseDecimal(NatStr(n)) == Some(n)
  {
    DigitsValueOfNatStr(n);
  }

  /** fmt's %d of an integer: a minus sign before the digits of a
      negative value. */
  function IntStr(x: int): (r: string)
    ensures x >= 0 ==> IsDigits(r)
    ensures x < 0 ==> |r| > 1 && r[0] == '-' && IsDigits(r[1..])
  {
    if x >= 0 then NatStr(x) else "-" + NatStr(-x)
  }

  lemma ParseDecimalOfIntStr(x: int)
    ensures ParseDecimal(IntStr(x)) == Some(x)
  {
    DigitsValueOfNatStr(if x >= 0 then x else -x);
    if x < 0 {
      assert IntStr(x)[1..] == NatStr(-x);
    }
  }
}
