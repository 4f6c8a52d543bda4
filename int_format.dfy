/**
 * Integer rendering used by the site: the `intcomma` template filter, which is Python's
 * `format(value, ",d")` (thousands separated by commas, a leading minus for negatives),
 * and the plain `"%d" % value` used in topic page names.
 *
 * The partner of the renderers is `Value`, which reads a numeral back (skipping commas),
 * and `StripCommas`, which relates the grouped rendering to the plain one.
 */
module IntFormat {

  predicate IsDigit(c: char) { '0' <= c <= '9' }

  /** A string of digits and commas, as `,d` produces after its sign. */
  predicate IsNumeral(s: string)
  {
    forall i :: 0 <= i < |s| ==> IsDigit(s[i]) || s[i] == ','
  }

  /** A numeral with an optional leading minus sign. */
  predicate IsSignedNumeral(s: string)
  {
    if s != [] && s[0] == '-' then IsNumeral(s[1..]) else IsNumeral(s)
  }

  function DigitChar(d: nat): (c: char)
    requires d < 10
    ensures IsDigit(c)
    ensures c as int - '0' as int == d
  {
    (48 + d) as char
  }

  function DigitValue(c: char): nat
    requires IsDigit(c)
  {
    c as int - '0' as int
  }

  /** The decimal digits of `n`, most significant first, without leading zeros. */
  function Digits(n: nat): (s: string)
    ensures s != [] && forall i :: 0 <= i < |s| ==> IsDigit(s[i])
  {
    if n < 10 then [DigitChar(n)] else Digits(n / 10) + [DigitChar(n % 10)]
  }

  /** `"%d" % x`. */
  function Decimal(x: int): (s: string)
    ensures s != [] && (s[0] == '-' <==> x < 0)
    ensures forall i :: 0 <= i < |s| ==> IsDigit(s[i]) || (i == 0 && s[i] == '-')
  {
    if x < 0 then "-" + Digits(-x) else Digits(x)
  }

  /** Exactly three digits, zero-padded: every group after the first. */
  function Pad3(n: nat): (s: string)
    requires n < 1000
    ensures |s| == 3 && forall i :: 0 <= i < 3 ==> IsDigit(s[i])
  {
    [DigitChar(n / 100), DigitChar(n / 10 % 10), DigitChar(n % 10)]
  }

  /** The digits of `n` in groups of three, separated by commas. */
  function Grouped(n: nat): (s: string)
    ensures s != [] && IsDigit(s[0]) && IsNumeral(s)
  {
    if n < 1000 then Digits(n) else Grouped(n / 1000) + "," + Pad3(n % 1000)
  }

  /** The `intcomma` filter: `format(x, ",d")`. */
  function IntComma(x: int): (s: string)
    ensures IsSignedNumeral(s)
  {
    if x < 0 then "-" + Grouped(-x) else Grouped(x)
  }

  // ---------------------------------------------------------------------------
  // Reading a numeral back
  // ---------------------------------------------------------------------------

  /** The number a digit string denotes; commas are skipped. */
  function Value(s: string): nat
    requires IsNumeral(s)
  {
    if s == [] then 0
    else if s[|s| - 1] == ',' then Value(s[..|s| - 1])
    else Value(s[..|s| - 1]) * 10 + DigitValue(s[|s| - 1])
  }

  function SignedValue(s: string): int
    requires IsSignedNumeral(s)
  {
    if s != [] && s[0] == '-' then -(Value(s[1..]) as int) else Value(s)
  }

  /** The string with its commas removed. */
  function StripCommas(s: string): (r: string)
    ensures |r| <= |s|
    ensures forall i :: 0 <= i < |r| ==> r[i] != ','
  {
    if s == [] then []
    else if s[|s| - 1] == ',' then StripCommas(s[..|s| - 1])
    else StripCommas(s[..|s| - 1]) + [s[|s| - 1]]
  }

  // ---------------------------------------------------------------------------
  // The shape of a grouped numeral
  // ---------------------------------------------------------------------------

  /**
   * Digits with a comma exactly at every fourth place counted from the right, the first
   * character a digit and no leading zero unless the whole numeral is "0".
   */
  predicate WellGrouped(s: string)
  {
    s != [] && IsDigit(s[0]) && (s[0] == '0' ==> s == "0")
    && (forall i :: 0 <= i < |s| ==> (s[i] == ',' <==> (|s| - i) % 4 == 0))
    && (forall i :: 0 <= i < |s| && s[i] != ',' ==> IsDigit(s[i]))
  }

  // ---------------------------------------------------------------------------
  // Lemmas
  // ---------------------------------------------------------------------------

  /** Only zero is written with a leading zero. */
  lemma {:induction false} DigitsLeading(n: nat)
    ensures Digits(n)[0] == '0' <==> n == 0
    ensures n == 0 ==> Digits(n) == "0"
  {
    if n >= 10 {
      DigitsLeading(n / 10);
      assert Digits(n)[0] == Digits(n / 10)[0];
    }
  }

  /** `"%d"` round-trips for naturals. */
  lemma {:induction false} DigitsValue(n: nat)
    ensures Value(Digits(n)) == n
  {
    if n >= 10 {
      var s := Digits(n);
      assert s[..|s| - 1] == Digits(n / 10);
      DigitsValue(n / 10);
    }
  }

  /** `"%d"` round-trips: reading the rendering back gives the number. */
  lemma DecimalValue(x: int)
    ensures SignedValue(Decimal(x)) == x
  {
    if x < 0 {
      DigitsValue(-x);
      assert Decimal(x)[1..] == Digits(-x);
    } else {
      DigitsValue(x);
      DigitsLeading(x);
    }
  }

  /** Distinct integers render to distinct `"%d"` strings. */
  lemma DecimalInjective(x: int, y: int)
    ensures Decimal(x) == Decimal(y) ==> x == y
  {
    DecimalValue(x);
    DecimalValue(y);
  }

  /** A number of a thousand or more is its thousands' digits followed by three padded ones. */
  lemma DigitsSplit(n: nat)
    requires n >= 1000
    ensures Digits(n) == Digits(n / 1000) + Pad3(n % 1000)
  {
    var a, d0 := n / 10, n % 10;
    var b, d1 := a / 10, a % 10;
    var c, d2 := b / 10, b % 10;
    assert Digits(n) == Digits(a) + [DigitChar(d0)];
    assert Digits(a) == Digits(b) + [DigitChar(d1)];
    assert Digits(b) == Digits(c) + [DigitChar(d2)];
    var r := d2 * 100 + d1 * 10 + d0;
    assert n == c * 1000 + r;
    DivModUnique(n, 1000, c, r);
    DivModUnique(r, 100, d2, d1 * 10 + d0);
    DivModUnique(r, 10, d2 * 10 + d1, d0);
    DivModUnique(d2 * 10 + d1, 10, d2, d1);
    assert Pad3(r) == [DigitChar(d2), DigitChar(d1), DigitChar(d0)];
  }

  /** Quotient and remainder by a power of ten are determined by any decomposition with a small remainder. */
  lemma DivModUnique(n: nat, d: nat, q: nat, r: nat)
    requires d == 10 || d == 100 || d == 1000
    requires r < d && n == q * d + r
    ensures n / d == q && n % d == r
  {
    if d == 10 {
      assert n == q * 10 + r;
    } else if d == 100 {
      assert n == q * 100 + r;
    } else {
      assert n == q * 1000 + r;
    }
  }

  lemma StripAppend(a: string, b: string)
    ensures StripCommas(a + b) == StripCommas(a) + StripCommas(b)
    decreases |b|
  {
    if b != [] {
      assert (a + b)[..|a + b| - 1] == a + b[..|b| - 1];
      StripAppend(a, b[..|b| - 1]);
    } else {
      assert a + b == a;
    }
  }

  lemma {:induction false} StripDigits(s: string)
    requires forall i :: 0 <= i < |s| ==> IsDigit(s[i])
    ensures StripCommas(s) == s
  {
    if s != [] {
      var init := s[..|s| - 1];
      StripDigits(init);
      assert s[|s| - 1] != ',';
      assert s == init + [s[|s| - 1]];
    }
  }

  /** Removing the commas from the grouped rendering gives the plain digits. */
  lemma {:induction false} GroupedStrip(n: nat)
    ensures StripCommas(Grouped(n)) == Digits(n)
  {
    if n < 1000 {
      StripDigits(Digits(n));
    } else {
      GroupedStrip(n / 1000);
      StripAppend(Grouped(n / 1000) + ",", Pad3(n % 1000));
      StripAppend(Grouped(n / 1000), ",");
      StripDigits(Pad3(n % 1000));
      DigitsSplit(n);
    }
  }

  /** `format(x, ",d")` is `"%d" % x` with commas inserted. */
  lemma {:induction false} IntCommaStrip(x: int)
    ensures StripCommas(IntComma(x)) == Decimal(x)
  {
    if x < 0 {
      var g := Grouped(-x);
      GroupedStrip(-x);
      StripAppend("-", g);
      assert StripCommas("-") == "-" by {
        assert "-"[..0] == [];
      }
      assert IntComma(x) == "-" + g;
    } else {
      GroupedStrip(x);
    }
  }

  /** Commas do not change the value read back. */
  lemma {:induction false} ValueStrip(s: string)
    requires IsNumeral(s)
    ensures IsNumeral(StripCommas(s))
    ensures Value(StripCommas(s)) == Value(s)
  {
    if s != [] {
      ValueStrip(s[..|s| - 1]);
      if s[|s| - 1] != ',' {
        var r := StripCommas(s);
        assert r[..|r| - 1] == StripCommas(s[..|s| - 1]);
      }
    }
  }

  /** `intcomma` round-trips: reading its output back, commas skipped, gives the number. */
  lemma IntCommaValue(x: int)
    ensures SignedValue(IntComma(x)) == x
  {
    var n := if x < 0 then -x else x;
    GroupedStrip(n);
    ValueStrip(Grouped(n));
    DigitsValue(n);
    if x < 0 {
      assert IntComma(x)[1..] == Grouped(n);
    }
  }

  /** The grouped rendering has a comma exactly every three digits from the right. */
  lemma {:induction false} GroupedShape(n: nat)
    ensures WellGrouped(Grouped(n))
  {
    if n < 1000 {
      DigitsLeading(n);
      var s := Digits(n);
      DigitsLength(n);
      forall i | 0 <= i < |s|
        ensures s[i] == ',' <==> (|s| - i) % 4 == 0
      {
        assert 1 <= |s| - i <= 3;
      }
    } else {
      GroupedShape(n / 1000);
      var g := Grouped(n / 1000);
      var p := Pad3(n % 1000);
      var s := Grouped(n);
      assert s == g + "," + p;
      forall i | 0 <= i < |s|
        ensures s[i] == ',' <==> (|s| - i) % 4 == 0
      {
        if i < |g| {
          assert s[i] == g[i];
          assert (|g| - i + 4) % 4 == (|g| - i) % 4;
        } else {
          GroupTail(g, p, s, i);
        }
      }
      assert s[0] == g[0];
    }
  }

  /** In the last four characters of a grouped numeral only the first is a comma. */
  lemma GroupTail(g: string, p: string, s: string, i: int)
    requires |p| == 3 && forall k :: 0 <= k < 3 ==> IsDigit(p[k])
    requires s == g + "," + p
    requires |g| <= i < |s|
    ensures s[i] == ',' <==> (|s| - i) % 4 == 0
  {
    if i == |g| {
      assert s[i] == ',';
      assert |s| - i == 4;
    } else {
      assert s[i] == p[i - |g| - 1];
      assert 1 <= |s| - i <= 3;
    }
  }

  lemma {:induction false} DigitsLength(n: nat)
    ensures n < 10 ==> |Digits(n)| == 1
    ensures n < 100 ==> |Digits(n)| <= 2
    ensures n < 1000 ==> |Digits(n)| <= 3
  {
    if n >= 10 {
      DigitsLength(n / 10);
    }
  }
}
