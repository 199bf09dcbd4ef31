/** Numbers as text in base ten. */
module Decimals {

  function Digits(n: nat): string {
    var digit := [('0' as int + n % 10) as char];
    if n < 10 then digit else Digits(n / 10) + digit
  }

  // ---------------------------------------------------------------- what such a text says

  predicate IsDigit(c: char) {
    '0' <= c <= '9'
  }

  /** The number that digits stand for, the last one counting one. */
  function ReadDigits(s: string): nat
    requires forall i :: 0 <= i < |s| ==> IsDigit(s[i])
  {
    if s == "" then 0
    else
      assert IsDigit(s[|s| - 1]);
      10 * ReadDigits(s[..|s| - 1]) + (s[|s| - 1] as int - '0' as int)
  }

  /** At least one digit, and no zero in front. */
  predicate IsDecimal(s: string) {
    s != "" && (forall i :: 0 <= i < |s| ==> IsDigit(s[i])) && (s[0] == '0' ==> |s| == 1)
  }

  /** Such a text is written for exactly one number. */
  lemma {:induction false} ReadWritten(n: nat)
    ensures IsDecimal(Digits(n)) && ReadDigits(Digits(n)) == n && (Digits(n)[0] == '0' <==> n == 0)
  {
    if n >= 10 {
      ReadWritten(n / 10);
      assert Digits(n)[..|Digits(n)| - 1] == Digits(n / 10);
    } else {
      assert Digits(n)[..0] == "";
    }
  }

  /** Every such text is written for the number it stands for. */
  lemma {:induction false} WrittenRead(s: string)
    requires IsDecimal(s)
    ensures Digits(ReadDigits(s)) == s && (s[0] != '0' ==> ReadDigits(s) > 0)
  {
    var front, d := s[..|s| - 1], s[|s| - 1] as int - '0' as int;
    var n := 10 * ReadDigits(front) + d;
    assert s == front + [s[|s| - 1]] && s[|s| - 1] == ('0' as int + n % 10) as char;
    if front != "" {
      WrittenRead(front);
      assert n / 10 == ReadDigits(front);
    } else {
      assert ReadDigits(front) == 0;
    }
  }

  /** The text of an integer: its digits, behind a minus sign if it is negative. */
  predicate Denotes(s: string, n: int) {
    if n < 0 then s != "" && s[0] == '-' && IsDecimal(s[1..]) && ReadDigits(s[1..]) == -n
    else IsDecimal(s) && ReadDigits(s) == n
  }

  /** Different integers have different texts. */
  lemma {:induction false} DenotesOne(s: string, m: int, n: int)
    requires Denotes(s, m) && Denotes(s, n)
    ensures m == n
  {
    assert s[0] == '-' ==> !IsDigit(s[0]);
  }
}
