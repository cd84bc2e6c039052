/** Order numbers: the date, a hyphen and the drawn counter padded to six digits. */
module OrderNumbers {
  function Digit(d: nat): char
    requires d < 10
  {
    (d as char) + '0'
  }

  function Digits(n: nat): (s: string)
    ensures |s| > 0
  {
    if n < 10 then [Digit(n)] else Digits(n / 10) + [Digit(n % 10)]
  }

  function Padded(n: nat): string {
    var s := Digits(n);
    seq(if |s| < 6 then 6 - |s| else 0, _ => '0') + s
  }

  function OrderNumber(date: string, n: nat): string {
    date + "-" + Padded(n)
  }

  /** The number a digit string denotes. */
  function Value(s: string): int {
    if s == [] then 0 else 10 * Value(s[..|s| - 1]) + (s[|s| - 1] as int - '0' as int)
  }

  lemma {:induction false} ValueOfDigits(n: nat)
    ensures Value(Digits(n)) == n
  {
    if n >= 10 {
      ValueOfDigits(n / 10);
      assert Digits(n)[..|Digits(n)| - 1] == Digits(n / 10);
    }
  }

  lemma {:induction false} LeadingZeros(k: nat, s: string)
    ensures Value(seq(k, _ => '0') + s) == Value(s)
  {
    var zeros := seq(k, _ => '0');
    if s != [] {
      LeadingZeros(k, s[..|s| - 1]);
      assert (zeros + s)[..|zeros + s| - 1] == zeros + s[..|s| - 1];
    } else if k > 0 {
      LeadingZeros(k - 1, []);
      assert zeros[..k - 1] == seq(k - 1, _ => '0');
      assert seq(k - 1, _ => '0') + [] == seq(k - 1, _ => '0') && zeros + [] == zeros;
    }
  }

  /** An order number can be read back, so two draws of the counter never give the same one. */
  lemma OrderNumbersAreUnique(date: string, n: nat, date': string, n': nat)
    requires |date| == |date'|
    ensures OrderNumber(date, n) == OrderNumber(date', n') <==> date == date' && n == n'
    ensures |Padded(n)| >= 6 && Value(OrderNumber(date, n)[|date| + 1..]) == n
  {
    ValueOfDigits(n);
    ValueOfDigits(n');
    var s, s' := Digits(n), Digits(n');
    LeadingZeros(if |s| < 6 then 6 - |s| else 0, s);
    LeadingZeros(if |s'| < 6 then 6 - |s'| else 0, s');
    assert OrderNumber(date, n)[|date| + 1..] == Padded(n);
    assert OrderNumber(date', n')[|date| + 1..] == Padded(n');
    assert OrderNumber(date, n)[..|date|] == date;
    assert OrderNumber(date', n')[..|date|] == date';
  }

  function PowerOfTen(k: nat): (r: nat)
    ensures r >= 1
  {
    if k == 0 then 1 else 10 * PowerOfTen(k - 1)
  }

  lemma {:induction false} DigitsWithin(n: nat, k: nat)
    requires k > 0
    ensures |Digits(n)| <= k <==> n < PowerOfTen(k)
    ensures forall c :: c in Digits(n) ==> '0' <= c <= '9'
    ensures n > 0 ==> Digits(n)[0] != '0'
    decreases n
  {
    if n >= 10 {
      DigitsWithin(n / 10, if k > 1 then k - 1 else 1);
    }
  }

  /** Date, hyphen, digits: six of them for the first million draws, afterwards as many as it takes. */
  lemma OrderNumberShape(date: string, n: nat)
    ensures OrderNumber(date, n) == date + ['-'] + Padded(n)
    ensures forall c :: c in Padded(n) ==> '0' <= c <= '9'
    ensures if n < 1000000 then |Padded(n)| == 6 else |Padded(n)| > 6 && Padded(n)[0] != '0'
  {
    assert PowerOfTen(6) == 1000000 by {
      assert PowerOfTen(3) == 1000;
    }
    DigitsWithin(n, 6);
  }
}
