/** `format_btc`: satoshis as BTC text with eight decimals, and the parser that undoes it. */
module BtcFormat {
  import opened Domain

  const SATS_PER_BTC: int := 100_000_000

  function DigitChar(d: int): (c: char)
    requires 0 <= d < 10
    ensures '0' <= c <= '9' && DigitValue(c) == d
  {
    ('0' as int + d) as char
  }

  function DigitValue(c: char): int {
    c as int - '0' as int
  }

  predicate AllDigits(s: string) {
    forall i :: 0 <= i < |s| ==> '0' <= s[i] <= '9'
  }

  /** Decimal text of a natural number, as `{}` prints it. */
  function Digits(n: nat): (s: string)
    ensures |s| >= 1 && AllDigits(s)
  {
    if n < 10 then [DigitChar(n)] else Digits(n / 10) + [DigitChar(n % 10)]
  }

  function IntText(x: int): string {
    if x < 0 then "-" + Digits(-x) else Digits(x)
  }

  /** `{:0width}`: zeros on the left up to `width` characters. */
  function ZeroPad(s: string, width: nat): (r: string)
    ensures |s| <= width ==> |r| == width
    ensures AllDigits(s) ==> AllDigits(r)
    decreases width - |s|
  {
    if |s| < width then ZeroPad("0" + s, width) else s
  }

  function FormatBtc(sats: U64): string {
    Digits(sats / SATS_PER_BTC) + "." + ZeroPad(Digits(sats % SATS_PER_BTC), 8)
  }

  /** The number a digit string denotes; independent of how the text was produced. */
  function Value(s: string): (v: nat)
    requires AllDigits(s)
  {
    if s == "" then 0 else 10 * Value(s[..|s| - 1]) + DigitValue(s[|s| - 1])
  }

  function Pow10(k: nat): (p: nat)
    ensures p >= 1
  {
    if k == 0 then 1 else 10 * Pow10(k - 1)
  }

  predicate NoRedundantZero(s: string) {
    |s| >= 1 && (s[0] == '0' ==> |s| == 1)
  }

  /** Digits, one dot, eight digits, and no leading zero except a lone one. */
  predicate WellFormedBtc(s: string) {
    && |s| >= 10
    && (forall i :: 0 <= i < |s| ==> (s[i] == '.' <==> i == |s| - 9))
    && AllDigits(s[..|s| - 9])
    && AllDigits(s[|s| - 8..])
    && NoRedundantZero(s[..|s| - 9])
  }

  function BtcValue(s: string): nat
    requires WellFormedBtc(s)
  {
    Value(s[..|s| - 9]) * SATS_PER_BTC + Value(s[|s| - 8..])
  }

  function ParseBtc(s: string): Option<U64> {
    if WellFormedBtc(s) && BtcValue(s) <= U64_MAX then Some(BtcValue(s)) else None
  }

  // ---------------------------------------------------------------- digit strings

  lemma {:induction false} ValueOfDigits(n: nat)
    ensures Value(Digits(n)) == n
    ensures NoRedundantZero(Digits(n))
    ensures n > 0 ==> Digits(n)[0] != '0'
  {
    if n < 10 {
      assert Digits(n)[..0] == "";
    } else {
      ValueOfDigits(n / 10);
      var s := Digits(n);
      assert s[..|s| - 1] == Digits(n / 10);
      assert s[0] == Digits(n / 10)[0];
    }
  }

  /** `text` is the shortest decimal text of `x`, with a minus sign if `x` is negative. */
  ghost predicate Denotes(text: string, x: int) {
    if x >= 0 then AllDigits(text) && NoRedundantZero(text) && Value(text) == x
    else
      && |text| >= 2 && text[0] == '-'
      && AllDigits(text[1..]) && NoRedundantZero(text[1..]) && Value(text[1..]) == -x
  }

  lemma IntTextDenotes(x: int)
    ensures Denotes(IntText(x), x)
  {
    ValueOfDigits(if x < 0 then -x else x);
    if x < 0 {
      assert IntText(x)[1..] == Digits(-x);
    }
  }

  lemma {:induction false} ValueBound(s: string)
    requires AllDigits(s)
    ensures Value(s) < Pow10(|s|)
  {
    if s != "" {
      ValueBound(s[..|s| - 1]);
    }
  }

  /** A digit string without redundant zeros is the text of its value. */
  lemma {:induction false} DigitsOfValue(s: string)
    requires AllDigits(s) && NoRedundantZero(s)
    ensures Digits(Value(s)) == s
    ensures s[0] != '0' ==> Value(s) > 0
  {
    var front, last := s[..|s| - 1], s[|s| - 1];
    assert s == front + [last];
    if front == "" {
      assert Value(s) == DigitValue(last);
      assert DigitChar(DigitValue(last)) == last;
    } else {
      DigitsOfValue(front);
      assert Value(s) / 10 == Value(front) && Value(s) % 10 == DigitValue(last);
      assert DigitChar(DigitValue(last)) == last;
    }
  }

  lemma {:induction false} ValuePrependZero(s: string)
    requires AllDigits(s)
    ensures AllDigits("0" + s) && Value("0" + s) == Value(s)
  {
    if s != "" {
      var t := "0" + s;
      assert t[..|t| - 1] == "0" + s[..|s| - 1];
      ValuePrependZero(s[..|s| - 1]);
    } else {
      assert "0" + s == "0";
      assert "0"[..0] == "";
    }
  }

  lemma {:induction false} ValueZeroPad(s: string, width: nat)
    requires AllDigits(s)
    ensures Value(ZeroPad(s, width)) == Value(s)
    decreases width - |s|
  {
    if |s| < width {
      ValuePrependZero(s);
      ValueZeroPad("0" + s, width);
    }
  }

  lemma {:induction false} DigitsLength(n: nat, width: nat)
    requires width >= 1 && n < Pow10(width)
    ensures |Digits(n)| <= width
  {
    if n >= 10 {
      assert Pow10(1) == 10;
      DigitsLength(n / 10, width - 1);
    }
  }

  lemma SameLastDigit(front: nat, c: char, front': nat, c': char)
    requires '0' <= c <= '9' && '0' <= c' <= '9'
    requires 10 * front + DigitValue(c) == 10 * front' + DigitValue(c')
    ensures front == front' && c == c'
  {
  }

  lemma FrontIsDigits(s: string)
    requires AllDigits(s) && s != ""
    ensures AllDigits(s[..|s| - 1]) && '0' <= s[|s| - 1] <= '9'
    ensures Value(s) == 10 * Value(s[..|s| - 1]) + DigitValue(s[|s| - 1])
  {
  }

  lemma SameEnds(s: string, t: string)
    requires s != "" && |s| == |t|
    requires s[..|s| - 1] == t[..|s| - 1] && s[|s| - 1] == t[|s| - 1]
    ensures s == t
  {
    assert s == s[..|s| - 1] + [s[|s| - 1]];
  }

  /** Two digit strings of one length with one value are the same string. */
  lemma {:induction false} ValueInjective(s: string, t: string)
    requires AllDigits(s) && AllDigits(t) && |s| == |t| && Value(s) == Value(t)
    ensures s == t
  {
    if s != "" {
      var n := |s| - 1;
      FrontIsDigits(s);
      FrontIsDigits(t);
      SameLastDigit(Value(s[..n]), s[n], Value(t[..n]), t[n]);
      ValueInjective(s[..n], t[..n]);
      SameEnds(s, t);
    }
  }

  lemma FractionText(n: nat)
    requires n < SATS_PER_BTC
    ensures var f := ZeroPad(Digits(n), 8); |f| == 8 && AllDigits(f) && Value(f) == n
  {
    assert Pow10(8) == SATS_PER_BTC by { PowersOfTen(); }
    DigitsLength(n, 8);
    ValueZeroPad(Digits(n), 8);
    ValueOfDigits(n);
  }

  lemma PowersOfTen()
    ensures Pow10(8) == SATS_PER_BTC
  {
    assert Pow10(2) == 100;
    assert Pow10(4) == 10_000;
    assert Pow10(6) == 1_000_000;
  }

  // ---------------------------------------------------------------- round trip

  lemma FormatShape(sats: U64)
    ensures WellFormedBtc(FormatBtc(sats))
    ensures BtcValue(FormatBtc(sats)) == sats
  {
    var whole := Digits(sats / SATS_PER_BTC);
    var fraction := ZeroPad(Digits(sats % SATS_PER_BTC), 8);
    var s := FormatBtc(sats);
    FractionText(sats % SATS_PER_BTC);
    ValueOfDigits(sats / SATS_PER_BTC);
    assert s[..|s| - 9] == whole;
    assert s[|s| - 8..] == fraction;
    assert forall i :: 0 <= i < |s| - 9 ==> s[i] == whole[i];
    assert forall i :: |s| - 8 <= i < |s| ==> s[i] == fraction[i - (|s| - 8)];
  }

  /** Parsing what was printed gives back the exact amount, for every `u64`. */
  lemma FormatThenParse(sats: U64)
    ensures ParseBtc(FormatBtc(sats)) == Some(sats)
  {
    FormatShape(sats);
  }

  /** The parser accepts nothing but printed amounts. */
  lemma ParseThenFormat(s: string, sats: U64)
    requires ParseBtc(s) == Some(sats)
    ensures FormatBtc(sats) == s
  {
    var n := |s|;
    var whole, fraction := s[..n - 9], s[n - 8..];
    ValueBound(fraction);
    PowersOfTen();
    assert sats / SATS_PER_BTC == Value(whole) && sats % SATS_PER_BTC == Value(fraction);
    DigitsOfValue(whole);
    FractionText(Value(fraction));
    ValueInjective(fraction, ZeroPad(Digits(Value(fraction)), 8));
    assert s == whole + "." + fraction;
  }

  // ---------------------------------------------------------------- order

  predicate LexBelow(a: string, b: string)
    requires |a| == |b|
  {
    exists k :: 0 <= k < |a| && a[..k] == b[..k] && a[k] < b[k]
  }

  /** Shorter first, then lexicographic. */
  predicate TextBelow(a: string, b: string) {
    |a| < |b| || (|a| == |b| && LexBelow(a, b))
  }

  lemma {:induction false} ValueOrder(a: string, b: string)
    requires AllDigits(a) && AllDigits(b) && |a| == |b| && Value(a) < Value(b)
    ensures LexBelow(a, b)
  {
    var n := |a|;
    var a', b' := a[..n - 1], b[..n - 1];
    if Value(a') < Value(b') {
      ValueOrder(a', b');
      var k :| 0 <= k < n - 1 && a'[..k] == b'[..k] && a'[k] < b'[k];
      assert a[..k] == a'[..k] && b[..k] == b'[..k];
    } else {
      assert Value(a') == Value(b');
      ValueInjective(a', b');
      assert a[n - 1] < b[n - 1];
    }
  }

  lemma {:induction false} DigitsOrder(n: nat, m: nat)
    requires n < m
    ensures TextBelow(Digits(n), Digits(m))
  {
    var a, b := Digits(n), Digits(m);
    ValueOfDigits(n);
    ValueOfDigits(m);
    DigitsLengthMonotone(n, m);
    if |a| == |b| {
      ValueOrder(a, b);
    }
  }

  lemma {:induction false} DigitsLengthMonotone(n: nat, m: nat)
    requires n <= m
    ensures |Digits(n)| <= |Digits(m)|
  {
    if n >= 10 {
      DigitsLengthMonotone(n / 10, m / 10);
    }
  }

  lemma TextOrderIsStrict(a: string, b: string)
    requires TextBelow(a, b)
    ensures a != b && !TextBelow(b, a)
  {
  }

  lemma PrefixDecides(a: string, b: string, x: string, y: string)
    requires |a| == |b| && |x| == |y| && LexBelow(a, b)
    ensures LexBelow(a + x, b + y)
  {
    var k :| 0 <= k < |a| && a[..k] == b[..k] && a[k] < b[k];
    assert (a + x)[..k] == a[..k] && (b + y)[..k] == b[..k];
    assert (a + x)[k] == a[k] && (b + y)[k] == b[k];
  }

  lemma SuffixDecides(p: string, x: string, y: string)
    requires |x| == |y| && LexBelow(x, y)
    ensures LexBelow(p + x, p + y)
  {
    var k :| 0 <= k < |x| && x[..k] == y[..k] && x[k] < y[k];
    var m := |p| + k;
    assert (p + x)[..m] == p + x[..k] && (p + y)[..m] == p + y[..k];
    assert (p + x)[m] == x[k] && (p + y)[m] == y[k];
  }

  lemma FormatKeepsLess(x: U64, y: U64)
    requires x < y
    ensures TextBelow(FormatBtc(x), FormatBtc(y))
  {
    var wx, wy := Digits(x / SATS_PER_BTC), Digits(y / SATS_PER_BTC);
    var fx, fy := ZeroPad(Digits(x % SATS_PER_BTC), 8), ZeroPad(Digits(y % SATS_PER_BTC), 8);
    FractionText(x % SATS_PER_BTC);
    FractionText(y % SATS_PER_BTC);
    if x / SATS_PER_BTC < y / SATS_PER_BTC {
      DigitsOrder(x / SATS_PER_BTC, y / SATS_PER_BTC);
      if |wx| == |wy| {
        PrefixDecides(wx, wy, ".", ".");
        PrefixDecides(wx + ".", wy + ".", fx, fy);
      }
    } else {
      assert wx == wy;
      ValueOrder(fx, fy);
      SuffixDecides(wx + ".", fx, fy);
    }
  }

  /** Comparing the texts (length first, then characters) compares the amounts. */
  lemma FormatPreservesOrder(x: U64, y: U64)
    ensures x < y <==> TextBelow(FormatBtc(x), FormatBtc(y))
    ensures FormatBtc(x) == FormatBtc(y) ==> x == y
  {
    FormatThenParse(x);
    FormatThenParse(y);
    if x < y {
      FormatKeepsLess(x, y);
    } else if y < x {
      FormatKeepsLess(y, x);
      TextOrderIsStrict(FormatBtc(y), FormatBtc(x));
    } else if TextBelow(FormatBtc(x), FormatBtc(x)) {
      TextOrderIsStrict(FormatBtc(x), FormatBtc(x));
    }
  }
}
