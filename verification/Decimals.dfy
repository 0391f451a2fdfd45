// strconv.Atoi and strconv.Itoa.
module Decimals {
  import opened Int64
  import opened Text

  predicate IsDigit(c: char) {
    '0' <= c <= '9'
  }

  predicate Digits(s: string) {
    s != "" && forall i :: 0 <= i < |s| ==> IsDigit(s[i])
  }

  function DecimalValue(s: string): nat
    requires forall i :: 0 <= i < |s| ==> IsDigit(s[i])
  {
    if s == "" then 0
    else
      assert IsDigit(s[|s| - 1]);
      DecimalValue(s[..|s| - 1]) * 10 + (s[|s| - 1] as int - '0' as int)
  }

  /** strconv.Atoi: an optional sign, then decimal digits, within 64 bits. */
  function Atoi(s: string): (r: Option<int>)
    ensures r.Some? ==> IsInt64(r.value)
    ensures r.Some? && '-' !in s ==> r.value >= 0
  {
    if s == "" then None
    else
      var digits := if s[0] == '-' || s[0] == '+' then s[1..] else s;
      if digits == "" || exists c :: c in digits && !IsDigit(c) then None
      else
        var n := DecimalValue(digits) as int;
        var n := if s[0] == '-' then -n else n;
        if IsInt64(n) then Some(n) else None
  }

  function DigitOf(d: nat): char
    requires d < 10
  {
    '0' + d as char
  }

  /** strconv.Itoa for naturals. */
  function Itoa(n: nat): string {
    if n < 10 then [DigitOf(n)] else Itoa(n / 10) + [DigitOf(n % 10)]
  }

  /** Printing and reading a natural number gives the number back. */
  lemma {:induction false} ItoaDigits(n: nat)
    ensures Digits(Itoa(n)) && DecimalValue(Itoa(n)) == n
  {
    if n >= 10 {
      ItoaDigits(n / 10);
      var s := Itoa(n);
      assert s[..|s| - 1] == Itoa(n / 10) && s[|s| - 1] == DigitOf(n % 10);
    } else {
      assert Itoa(n)[..0] == "";
    }
  }

  /** Leading zeros do not count. */
  lemma {:induction false} LeadingZero(s: string)
    requires Digits(s)
    ensures Digits("0" + s) && DecimalValue("0" + s) == DecimalValue(s)
  {
    var t := "0" + s;
    assert t[..|t| - 1] == "0" + s[..|s| - 1];
    if |s| > 1 {
      LeadingZero(s[..|s| - 1]);
    } else {
      assert t[..1] == "0" && "0"[..0] == "" && s[..0] == "";
      assert DecimalValue("0") == 0;
    }
  }

  lemma {:induction false} DigitsPlain(s: string)
    ensures Digits(s) <==> s != "" && !(exists c :: c in s && !IsDigit(c))
    ensures Digits(s) ==> s[0] != '-' && s[0] != '+' && '-' !in s && '.' !in s
  {
    if exists c :: c in s && !IsDigit(c) {
      var c :| c in s && !IsDigit(c);
      var i :| 0 <= i < |s| && s[i] == c;
    }
    assert forall i :: 0 <= i < |s| ==> s[i] in s;
  }

  /** What Atoi reads: digits, alone or behind one sign, of a value that fits. */
  lemma {:induction false} AtoiExact(s: string)
    ensures Digits(s) ==> Atoi(s) == if DecimalValue(s) <= MAX_INT then Some(DecimalValue(s)) else None
    ensures s != "" && s[0] == '+' && Digits(s[1..]) ==>
              Atoi(s) == if DecimalValue(s[1..]) <= MAX_INT then Some(DecimalValue(s[1..])) else None
    ensures s != "" && s[0] == '-' && Digits(s[1..]) ==>
              Atoi(s) == if 0 - DecimalValue(s[1..]) >= MIN_INT then Some(0 - DecimalValue(s[1..])) else None
    ensures !Digits(s) && !(s != "" && (s[0] == '+' || s[0] == '-') && Digits(s[1..])) ==> Atoi(s) == None
  {
    DigitsPlain(s);
    if s != "" {
      DigitsPlain(s[1..]);
    }
  }
}
