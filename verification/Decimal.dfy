/** Decimal printing of naturals, as the source's `format!` does it, and its inverse. */
module Decimal {
  import opened Words

  type Digit = d: int | 0 <= d < 10

  function Digits(n: nat): (ds: seq<Digit>)
    ensures ds != []
  {
    if n < 10 then [n] else Digits(n / 10) + [n % 10]
  }

  /** The value a digit string denotes. */
  function Value(ds: seq<Digit>): nat {
    if ds == [] then 0 else 10 * Value(ds[..|ds| - 1]) + ds[|ds| - 1]
  }

  /** The printed digits as text, and as the bytes of that text. */
  function Text(n: nat): string {
    var ds := Digits(n);
    seq(|ds|, i requires 0 <= i < |ds| => '0' + ds[i] as char)
  }

  function Ascii(n: nat): Bytes {
    var ds := Digits(n);
    seq(|ds|, i requires 0 <= i < |ds| => 48 + (ds[i] as int))
  }

  lemma {:induction false} ValueOfDigits(n: nat)
    ensures Value(Digits(n)) == n
  {
    if n >= 10 {
      ValueOfDigits(n / 10);
      assert Digits(n)[..|Digits(n)| - 1] == Digits(n / 10);
    }
  }

  /** Printed as one writes it: 1203 is "1203". */
  lemma PrintedExample()
    ensures Digits(1203) == [1, 2, 0, 3] && Text(1203) == "1203" && Ascii(1203) == [49, 50, 48, 51]
  {
    assert Digits(1) == [1] && Digits(12) == [1, 2] && Digits(120) == [1, 2, 0];
  }

  /** Printing never starts with a superfluous zero. */
  lemma {:induction false} NoLeadingZero(n: nat)
    ensures Digits(n)[0] == 0 ==> n == 0
  {
    if n >= 10 {
      NoLeadingZero(n / 10);
    }
  }

  lemma {:induction false} DigitsGrow(m: nat, n: nat)
    requires m <= n
    ensures |Digits(m)| <= |Digits(n)|
  {
    if m >= 10 {
      DigitsGrow(m / 10, n / 10);
    }
  }

  /** The digits without a superfluous leading zero are those printing produces. */
  lemma {:induction false} DigitsOfValue(ds: seq<Digit>)
    requires ds != [] && (ds[0] == 0 ==> |ds| == 1)
    ensures Digits(Value(ds)) == ds
  {
    var n := |ds| - 1;
    if n > 0 {
      var front := ds[..n];
      DigitsOfValue(front);
      ValuePositive(front);
      assert Value(ds) / 10 == Value(front) && Value(ds) % 10 == ds[n];
      assert ds == front + [ds[n]];
    } else {
      assert ds[..0] == [];
    }
  }

  lemma {:induction false} ValuePositive(ds: seq<Digit>)
    requires ds != [] && ds[0] != 0
    ensures Value(ds) > 0
  {
    if |ds| > 1 {
      ValuePositive(ds[..|ds| - 1]);
    } else {
      assert ds[..0] == [];
    }
  }

  lemma DigitsInjective(m: nat, n: nat)
    requires Digits(m) == Digits(n)
    ensures m == n
  {
    ValueOfDigits(m);
    ValueOfDigits(n);
  }

  lemma TextInjective(m: nat, n: nat)
    requires Text(m) == Text(n)
    ensures m == n
  {
    var a, b := Digits(m), Digits(n);
    assert |a| == |Text(m)| == |b|;
    forall i | 0 <= i < |a| ensures a[i] == b[i] {
      assert Text(m)[i] == '0' + a[i] as char;
      assert Text(n)[i] == '0' + b[i] as char;
    }
    assert a == b;
    DigitsInjective(m, n);
  }

  /** Numbers of one decade differ only in their last printed byte. */
  lemma AsciiOfDecade(tens: nat, unit: Digit)
    ensures tens == 0 ==> Ascii(unit) == [48 + unit]
    ensures tens > 0 ==> Ascii(10 * tens + unit) == Ascii(tens) + [48 + unit]
  {
    var n := 10 * tens + unit;
    if tens > 0 {
      assert n / 10 == tens && n % 10 == unit;
      assert Digits(n) == Digits(tens) + [unit];
    }
  }
}
