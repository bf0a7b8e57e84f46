/** Decimal digits: Python's `int(...)` on a digit string, `str(n)` and the
    `{:,.0f}` format (digits grouped by three with commas) on whole numbers. */
module Numbers {

  predicate IsDigit(c: char) {
    '0' <= c <= '9'
  }

  predicate AllDigits(s: string) {
    forall i | 0 <= i < |s| :: IsDigit(s[i])
  }

  function DigitValue(c: char): nat
    requires IsDigit(c)
  {
    c as int - '0' as int
  }

  function Digit(d: nat): (c: char)
    requires d < 10
    ensures IsDigit(c) && DigitValue(c) == d
  {
    ('0' as int + d) as char
  }

  function Pow10(k: nat): (p: nat)
    ensures p >= 1
  {
    if k == 0 then 1 else 10 * Pow10(k - 1)
  }

  /** The product of two naturals (a quantity times a unit price), written
      as repeated addition so that the solver's arithmetic stays linear
      where products only pass through; TimesIsProduct relates it to `*`. */
  function Times(a: nat, b: nat): nat {
    if a == 0 then 0 else b + Times(a - 1, b)
  }

  lemma {:induction false} TimesIsProduct(a: nat, b: nat)
    ensures Times(a, b) == a * b
  {
    if a > 0 {
      TimesIsProduct(a - 1, b);
      assert (a - 1) * b + b == a * b;
    }
  }

  /** The value of a string of decimal digits, most significant first;
      leading zeros are allowed, as in Python's `int("007")`. */
  function DigitsValue(s: string): nat
    requires AllDigits(s)
  {
    if s == [] then 0 else DigitsValue(s[..|s| - 1]) * 10 + DigitValue(s[|s| - 1])
  }

  /** A string that is a non-empty run of decimal digits parses to its value;
      any other string (empty, signed, with letters, spaces or a point) gives 0. */
  function ParseDigits(s: string): (r: nat)
    ensures !AllDigits(s) || s == [] ==> r == 0
    ensures s != [] && AllDigits(s) ==> r == DigitsValue(s)
  {
    if s != [] && AllDigits(s) then DigitsValue(s) else 0
  }

  /** `str(n)`: the shortest decimal numeral of `n` (NatToStringFacts). */
  function NatToString(n: nat): (r: string)
    ensures |r| >= 1
  {
    if n < 10 then [Digit(n)] else NatToString(n / 10) + [Digit(n % 10)]
  }

  /** `str(n)` is a run of digits without a leading zero (unless `n` is 0)
      and reads back as `n`. */
  lemma {:induction false} NatToStringFacts(n: nat)
    ensures AllDigits(NatToString(n))
    ensures NatToString(n)[0] == '0' ==> n == 0
    ensures DigitsValue(NatToString(n)) == n
  {
    if n >= 10 {
      var init := NatToString(n / 10);
      NatToStringFacts(n / 10);
      var r := NatToString(n);
      assert r[..|r| - 1] == init;
      assert r[0] == init[0];
    }
  }

  /** Three digits with leading zeros: the groups after the first comma. */
  function Pad3(m: nat): (r: string)
    requires m < 1000
    ensures |r| == 3 && AllDigits(r) && DigitsValue(r) == m
  {
    var r := [Digit(m / 100), Digit(m / 10 % 10), Digit(m % 10)];
    assert r[..2][..1] == r[..1] && r[..1][..0] == [];
    assert DigitsValue(r[..1]) == m / 100;
    assert DigitsValue(r[..2]) == m / 100 * 10 + m / 10 % 10;
    assert (m / 100 * 10 + m / 10 % 10) * 10 + m % 10 == m;
    r
  }

  /** `format(n, ",.0f")` for a whole number `n`: its digits, grouped in threes
      from the right and separated by commas (GroupFacts). */
  function Group(n: nat): string {
    if n < 1000 then NatToString(n) else Group(n / 1000) + "," + Pad3(n % 1000)
  }

  /** A grouped numeral starts with a digit, which is `0` only for 0; a
      character is a comma exactly when its distance from the end is a
      multiple of four, and every other character is a digit; below a
      thousand it is just `str(n)`. */
  lemma {:induction false} GroupFacts(n: nat)
    ensures |Group(n)| >= 1 && IsDigit(Group(n)[0])
    ensures GroupedByThree(Group(n))
    ensures n < 1000 ==> Group(n) == NatToString(n)
    ensures Group(n)[0] == '0' ==> n == 0
  {
    if n < 1000 {
      NatToStringShort(n);
      NatToStringFacts(n);
      var r := NatToString(n);
      assert |r| <= 3;
      forall i | 0 <= i < |r| ensures (r[i] == ',') == ((|r| - i) % 4 == 0) {
        assert IsDigit(r[i]);
      }
    } else {
      var head := Group(n / 1000);
      GroupFacts(n / 1000);
      GroupedExtend(head, Pad3(n % 1000));
      assert Group(n)[0] == head[0];
    }
  }

  predicate GroupedByThree(r: string) {
    && (forall i | 0 <= i < |r| :: (r[i] == ',') == ((|r| - i) % 4 == 0))
    && (forall i | 0 <= i < |r| :: r[i] != ',' ==> IsDigit(r[i]))
  }

  lemma GroupedExtend(head: string, tail: string)
    requires GroupedByThree(head) && |tail| == 3 && AllDigits(tail)
    ensures GroupedByThree(head + "," + tail)
  {
    var r := head + "," + tail;
    assert |r| == |head| + 4;
    forall i | 0 <= i < |r|
      ensures (r[i] == ',') == ((|r| - i) % 4 == 0)
      ensures r[i] != ',' ==> IsDigit(r[i])
    {
      if i < |head| {
        assert r[i] == head[i];
        assert (|r| - i) % 4 == (|head| - i) % 4;
      } else if i > |head| {
        assert r[i] == tail[i - |head| - 1];
      }
    }
  }

  // ---------------------------------------------------------------------
  // Lemmas

  lemma {:induction false} DigitsValueAppend(a: string, b: string)
    requires AllDigits(a) && AllDigits(b)
    ensures AllDigits(a + b)
    ensures DigitsValue(a + b) == DigitsValue(a) * Pow10(|b|) + DigitsValue(b)
    decreases |b|
  {
    assert AllDigits(a + b) by {
      assert forall i | 0 <= i < |a + b| :: (a + b)[i] == if i < |a| then a[i] else b[i - |a|];
    }
    if b == [] {
      assert a + b == a;
    } else {
      var b', last := b[..|b| - 1], b[|b| - 1];
      assert (a + b)[..|a + b| - 1] == a + b';
      assert (a + b)[|a + b| - 1] == last;
      DigitsValueAppend(a, b');
      ShiftDigit(DigitsValue(a), Pow10(|b'|), DigitsValue(b'), DigitValue(last));
    }
  }

  lemma ShiftDigit(x: nat, p: nat, y: nat, d: nat)
    ensures (x * p + y) * 10 + d == x * (10 * p) + (y * 10 + d)
  {
  }

  lemma NatToStringShort(n: nat)
    ensures n < 10 ==> |NatToString(n)| == 1
    ensures n < 100 ==> |NatToString(n)| <= 2
    ensures n < 1000 ==> |NatToString(n)| <= 3
  {
    if n >= 10 {
      NatToStringShort(n / 10);
    }
  }

  /** Printing a number and parsing it back gives the number. */
  lemma ParseNatToString(n: nat)
    ensures ParseDigits(NatToString(n)) == n
  {
    NatToStringFacts(n);
  }

  /** A few values in the display format. */
  lemma GroupExamples()
    ensures Group(0) == "0" && Group(20) == "20" && Group(120) == "120"
  {
  }
}
