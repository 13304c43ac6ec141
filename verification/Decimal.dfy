/** Decimal numbers as text (Go's %d formatting and strconv.Atoi). */
module Decimal {
  import opened Common

  predicate IsDigit(c: char) {
    '0' <= c <= '9'
  }

  predicate AllDigits(s: string) {
    forall i :: 0 <= i < |s| ==> IsDigit(s[i])
  }

  function Itoa(n: nat): (s: string)
    ensures |s| > 0 && AllDigits(s)
  {
    if n < 10 then ['0' + n as char] else Itoa(n / 10) + ['0' + (n % 10) as char]
  }

  function Value(s: string): nat
    requires AllDigits(s)
  {
    if s == [] then 0 else Value(s[..|s| - 1]) * 10 + (s[|s| - 1] - '0') as int
  }

  /** Accepts an optional sign and at least one digit. Numbers too wide for the machine are still numbers here. */
  function Atoi(s: string): Option<int> {
    var signed := s != [] && (s[0] == '+' || s[0] == '-');
    var digits := if signed then s[1..] else s;
    if digits == [] || !AllDigits(digits) then None
    else
      var v: int := Value(digits);
      Some(if signed && s[0] == '-' then -v else v)
  }

  lemma {:induction false} ValueItoa(n: nat)
    ensures Value(Itoa(n)) == n
    ensures n > 0 ==> Itoa(n)[0] != '0'
  {
    var s := Itoa(n);
    if n < 10 {
      assert s[..0] == [];
    } else {
      ValueItoa(n / 10);
      assert s[..|s| - 1] == Itoa(n / 10);
    }
  }

  lemma AtoiItoa(n: nat)
    ensures Atoi(Itoa(n)) == Some(n)
  {
    ValueItoa(n);
    assert IsDigit(Itoa(n)[0]);
  }

  /** Exactly which texts are numbers: digits, or a sign and digits. */
  lemma AtoiExactly(s: string)
    ensures Atoi(s).Some? <==>
              (s != [] && AllDigits(s)) || (|s| > 1 && (s[0] == '+' || s[0] == '-') && AllDigits(s[1..]))
    ensures s != [] && AllDigits(s) ==> Atoi(s) == Some(Value(s))
    ensures |s| > 1 && s[0] == '+' && AllDigits(s[1..]) ==> Atoi(s) == Some(Value(s[1..]))
    ensures |s| > 1 && s[0] == '-' && AllDigits(s[1..]) ==> Atoi(s) == Some(0 - Value(s[1..]))
  {
    hide Value;
    if s != [] && (s[0] == '+' || s[0] == '-') {
      assert !IsDigit(s[0]);
    }
  }

  lemma AppendDigit(n: nat, c: char)
    requires n > 0 && IsDigit(c)
    ensures Itoa(n * 10 + (c - '0') as int) == Itoa(n) + [c]
  {
    var d := (c - '0') as int;
    assert (n * 10 + d) / 10 == n && (n * 10 + d) % 10 == d;
    assert '0' + d as char == c;
  }

  /** A digit string without a leading zero is the canonical text of its value. */
  lemma {:induction false} ItoaValue(s: string)
    requires AllDigits(s) && s != [] && s[0] != '0'
    ensures Value(s) > 0 && Itoa(Value(s)) == s
  {
    hide Itoa;
    var t, c := s[..|s| - 1], s[|s| - 1];
    assert s == t + [c] && IsDigit(c);
    if t == [] {
      OneDigit(c);
    } else {
      ItoaValue(t);
      AppendDigit(Value(t), c);
    }
  }

  lemma OneDigit(c: char)
    requires IsDigit(c)
    ensures Itoa((c - '0') as int) == [c]
  {
    assert '0' + ((c - '0') as int) as char == c;
  }

  lemma ItoaPortLength(n: nat)
    requires n <= 65535
    ensures |Itoa(n)| <= 5
  {
    var a, b, c := n / 10, n / 100, n / 1000;
    assert |Itoa(n)| <= 1 + (if n < 10 then 0 else |Itoa(a)|);
    assert a / 10 == b && b / 10 == c && c / 10 == n / 10000 < 10;
    assert |Itoa(c)| <= 2;
    assert |Itoa(b)| <= 3;
    assert |Itoa(a)| <= 4;
  }
}
