/** Node labels of the deployment tool: counters printed in decimal and padded with zeros
    (`generateLabel` of deployment/network.cpp). */
module DomainLabels {

  type Label = string

  function Digit(d: nat): char
    requires d < 10
  {
    (d + '0' as int) as char
  }

  function Digits(n: nat): string {
    if n < 10 then [Digit(n)] else Digits(n / 10) + [Digit(n % 10)]
  }

  function Pad(s: string, width: nat): string
    decreases width - |s|
  {
    if |s| >= width then s else Pad("0" + s, width)
  }

  function LabelOf(n: nat, width: nat): Label {
    Pad(Digits(n), width)
  }

  // Reading a label back.
  function Value(s: string): int {
    if s == "" then 0 else 10 * Value(s[..|s| - 1]) + (s[|s| - 1] as int - '0' as int)
  }

  lemma {:induction false} ValueOfDigits(n: nat)
    ensures Value(Digits(n)) == n
  {
    if n >= 10 {
      ValueOfDigits(n / 10);
      var s := Digits(n / 10) + [Digit(n % 10)];
      assert s[..|s| - 1] == Digits(n / 10);
    } else {
      assert [Digit(n)][..0] == "";
    }
  }

  lemma {:induction false} LeadingZero(s: string)
    ensures Value("0" + s) == Value(s)
  {
    if s == "" {
      assert "0" + s == "0" && "0"[..0] == "";
      assert Value("") == 0;
    } else {
      LeadingZero(s[..|s| - 1]);
      var z := "0" + s;
      assert z[..|z| - 1] == "0" + s[..|s| - 1];
    }
  }

  lemma {:induction false} ValueOfPadded(s: string, width: nat)
    ensures Value(Pad(s, width)) == Value(s)
    decreases width - |s|
  {
    if |s| < width {
      LeadingZero(s);
      ValueOfPadded("0" + s, width);
    }
  }

  /** A label is all digits, at least as long as asked for, and not longer unless the number is. */
  lemma {:induction false} PaddedShape(s: string, width: nat)
    requires forall c :: c in s ==> '0' <= c <= '9'
    ensures var r := Pad(s, width); |r| == (if |s| < width then width else |s|) && s == r[|r| - |s|..] && forall c :: c in r ==> '0' <= c <= '9'
    decreases width - |s|
  {
    if |s| < width { PaddedShape("0" + s, width); }
  }

  lemma {:induction false} DigitsOnly(n: nat)
    ensures forall c :: c in Digits(n) ==> '0' <= c <= '9'
    ensures |Digits(n)| > 0 && (n > 0 ==> Digits(n)[0] != '0')
  {
    if n >= 10 { DigitsOnly(n / 10); }
  }

  /** Different counters give different labels, whatever the padding. */
  lemma LabelsDiffer(m: nat, n: nat, width: nat)
    ensures LabelOf(m, width) == LabelOf(n, width) <==> m == n
  {
    ValueOfDigits(m);
    ValueOfDigits(n);
    ValueOfPadded(Digits(m), width);
    ValueOfPadded(Digits(n), width);
  }
}
