/**
 Rendering numbers as text the way Python's formatting does: `str(n)` for a
 non-negative integer, `format(n, ",")`, `format(x, ".Nf")`, `str(round(x, 2))`,
 and the width/alignment specifiers `2d` and `<20`. Floats are modelled as
 exact reals, and rounding is half-to-even on the exact value.
 */
module Format {
  import opened Text

  function Pow10(n: nat): (p: nat)
    ensures p >= 1
  {
    if n == 0 then 1 else 10 * Pow10(n - 1)
  }

  lemma DivModNat(k: nat, p: nat)
    requires p >= 1
    ensures 0 <= k / p && 0 <= k % p < p && k == (k / p) * p + k % p
  {
  }

  function DigitChar(d: nat): (c: char)
    requires d < 10
    ensures IsDigit(c)
  {
    ('0' as int + d) as char
  }

  /** `str(n)` for a non-negative integer. */
  function Dec(n: nat): (r: string)
    ensures |r| >= 1
    ensures forall i :: 0 <= i < |r| ==> IsDigit(r[i])
    ensures r[0] == '0' ==> n == 0
  {
    if n < 10 then [DigitChar(n)] else Dec(n / 10) + [DigitChar(n % 10)]
  }

  /** The number the decimal digits of s spell, read left to right; every
      other character (sign, point, thousands separator) is skipped. */
  function DigitValue(s: string): nat {
    if |s| == 0 then 0
    else
      var c := s[|s| - 1];
      if IsDigit(c) then 10 * DigitValue(s[..|s| - 1]) + (c as int - '0' as int)
      else DigitValue(s[..|s| - 1])
  }

  /** The number of decimal digits in s. */
  function DigitCount(s: string): nat {
    if |s| == 0 then 0
    else DigitCount(s[..|s| - 1]) + (if IsDigit(s[|s| - 1]) then 1 else 0)
  }

  /** `str(n)` reads back as n: the decimal rendering is faithful. */
  lemma {:induction false} DecValue(n: nat)
    ensures DigitValue(Dec(n)) == n
    ensures DigitCount(Dec(n)) == |Dec(n)|
  {
    if n >= 10 {
      var r := Dec(n);
      assert r[..|r| - 1] == Dec(n / 10);
      DecValue(n / 10);
    }
  }

  /** Numbers below 10^k take at most k digits. */
  lemma {:induction false} DecLength(n: nat, k: nat)
    requires n < Pow10(k)
    ensures |Dec(n)| <= Max(k, 1)
  {
    if n >= 10 {
      DecLength(n / 10, k - 1);
    }
  }

  /** Canonical decimal: one or more digits, with no leading zero unless the
      number is 0 itself, written "0". */
  predicate Canonical(s: string) {
    && |s| >= 1
    && (forall i :: 0 <= i < |s| ==> IsDigit(s[i]))
    && (s[0] == '0' ==> |s| == 1)
  }

  /** `str(n)` is canonical. */
  lemma DecCanonical(n: nat)
    ensures Canonical(Dec(n))
  {
    if n == 0 {
      assert Dec(n) == ['0'];
    }
  }

  /** A canonical string is the one rendering of the number it spells. */
  lemma {:induction false} CanonicalUnique(s: string)
    requires Canonical(s)
    ensures s == Dec(DigitValue(s))
    decreases |s|
  {
    var p, c := s[..|s| - 1], s[|s| - 1];
    var d := c as int - '0' as int;
    assert IsDigit(c);
    assert DigitValue(s) == 10 * DigitValue(p) + d;
    if |s| == 1 {
      assert DigitValue(p) == 0;
      assert DigitChar(d) == c;
    } else {
      assert Canonical(p) by {
        assert p[0] == s[0];
        forall i | 0 <= i < |p| ensures IsDigit(p[i]) {
          assert p[i] == s[i];
        }
      }
      CanonicalUnique(p);
      LeadingDigitValue(p);
      var n := DigitValue(s);
      assert n / 10 == DigitValue(p) && n % 10 == d;
      assert DigitChar(n % 10) == c;
      assert s == p + [c];
    }
  }

  /** All digits, the first not '0': the value is positive. */
  lemma {:induction false} LeadingDigitValue(s: string)
    requires |s| >= 1 && s[0] != '0'
    requires forall i :: 0 <= i < |s| ==> IsDigit(s[i])
    ensures DigitValue(s) >= 1
    decreases |s|
  {
    var p := s[..|s| - 1];
    if |s| > 1 {
      assert p[0] == s[0];
      forall i | 0 <= i < |p| ensures IsDigit(p[i]) {
        assert p[i] == s[i];
      }
      LeadingDigitValue(p);
    }
  }

  lemma {:induction false} DigitCountAppend(a: string, b: string)
    ensures DigitCount(a + b) == DigitCount(a) + DigitCount(b)
    decreases |b|
  {
    if |b| == 0 {
      assert a + b == a;
    } else {
      var b' := b[..|b| - 1];
      assert (a + b)[..|a + b| - 1] == a + b';
      DigitCountAppend(a, b');
    }
  }

  lemma {:induction false} DigitValueAppend(a: string, b: string)
    ensures DigitValue(a + b) == DigitValue(a) * Pow10(DigitCount(b)) + DigitValue(b)
    decreases |b|
  {
    if |b| == 0 {
      assert a + b == a;
    } else {
      var b' := b[..|b| - 1];
      var last := b[|b| - 1];
      assert (a + b)[..|a + b| - 1] == a + b';
      assert (a + b)[|a + b| - 1] == last;
      DigitValueAppend(a, b');
      DigitCountAppend(a, b');
      var va, vb', p' := DigitValue(a), DigitValue(b'), Pow10(DigitCount(b'));
      if IsDigit(last) {
        var d := last as int - '0' as int;
        assert DigitValue(a + b) == 10 * DigitValue(a + b') + d;
        assert DigitValue(b) == 10 * vb' + d;
        assert Pow10(DigitCount(b)) == 10 * p';
        ShiftDigit(va, p', vb', d);
      } else {
        assert DigitValue(a + b) == DigitValue(a + b');
        assert DigitValue(b) == vb';
        assert DigitCount(b) == DigitCount(b');
      }
    }
  }

  lemma ShiftDigit(va: int, p: int, vb: int, d: int)
    ensures 10 * (va * p + vb) + d == va * (10 * p) + (10 * vb + d)
  {
  }

  /** n copies of c. */
  function Repeat(c: char, n: nat): (r: string)
    ensures |r| == n
    ensures forall i :: 0 <= i < n ==> r[i] == c
  {
    seq(n, _ => c)
  }

  lemma {:induction false} ZerosValue(n: nat)
    ensures DigitValue(Repeat('0', n)) == 0
    ensures DigitCount(Repeat('0', n)) == n
  {
    if n > 0 {
      assert Repeat('0', n)[..n - 1] == Repeat('0', n - 1);
      ZerosValue(n - 1);
    }
  }

  /** Right alignment in a field of the given width (`format(s, ">w")`,
      and `{:wd}` for integers): s preceded by as many fill characters as
      it falls short of the width. */
  function PadLeft(s: string, width: nat, fill: char): (r: string)
    ensures |r| == Max(|s|, width)
    ensures r[|r| - |s|..] == s
    ensures forall i :: 0 <= i < |r| - |s| ==> r[i] == fill
  {
    if |s| >= width then s else Repeat(fill, width - |s|) + s
  }

  /** Left justification in a field of the given width (`{:<w}`). */
  function PadRight(s: string, width: nat, fill: char): (r: string)
    ensures |r| == Max(|s|, width)
    ensures r[..|s|] == s
    ensures forall i :: |s| <= i < |r| ==> r[i] == fill
  {
    if |s| >= width then s else s + Repeat(fill, width - |s|)
  }

  /** Zero padding changes no value. */
  lemma ZeroPadValue(s: string, width: nat)
    ensures DigitValue(PadLeft(s, width, '0')) == DigitValue(s)
  {
    if |s| < width {
      ZerosValue(width - |s|);
      DigitValueAppend(Repeat('0', width - |s|), s);
    }
  }

  /** `format(n, ",")`: decimal digits grouped in threes by commas. */
  function GroupThousands(n: nat): (r: string)
    ensures forall i :: 0 <= i < |r| ==> IsDigit(r[i]) || r[i] == ','
  {
    if n < 1000 then Dec(n)
    else GroupThousands(n / 1000) + "," + PadLeft(Dec(n % 1000), 3, '0')
  }

  /** The grouped rendering spells n: dropping the separators gives the
      digits of n back. */
  lemma {:induction false} GroupThousandsValue(n: nat)
    ensures DigitValue(GroupThousands(n)) == n
  {
    if n < 1000 {
      DecValue(n);
    } else {
      GroupThousandsValue(n / 1000);
      GroupValue(GroupThousands(n / 1000), n / 1000, n % 1000);
    }
  }

  /** The shape of `format(n, ",")`: digits with a comma before every third
      digit counted from the right and nowhere else, and no leading zero
      unless the number is 0. */
  predicate Grouped(r: string) {
    && |r| % 4 != 0
    && (forall i :: 0 <= i < |r| ==> (r[i] == ',' <==> (|r| - i) % 4 == 0))
    && (forall i :: 0 <= i < |r| && r[i] != ',' ==> IsDigit(r[i]))
    && (r[0] == '0' ==> r == "0")
  }

  /** The grouped rendering has the shape of `format(n, ",")`, and starts
      with '0' only for 0. */
  lemma {:induction false} GroupThousandsLayout(n: nat)
    ensures Grouped(GroupThousands(n))
    ensures GroupThousands(n)[0] == '0' <==> n == 0
  {
    assert Pow10(3) == 1000;
    if n < 1000 {
      var r := Dec(n);
      DecLength(n, 3);
      if n == 0 {
        assert r == "0";
      }
      forall i | 0 <= i < |r| ensures (r[i] == ',' <==> (|r| - i) % 4 == 0) {
        assert IsDigit(r[i]);
      }
    } else {
      GroupThousandsLayout(n / 1000);
      var low := PadLeft(Dec(n % 1000), 3, '0');
      DecLength(n % 1000, 3);
      GroupStep(GroupThousands(n / 1000), low);
    }
  }

  /** A grouped number with a leading non-zero digit, a comma and three
      more digits is grouped. */
  lemma GroupStep(head: string, low: string)
    requires Grouped(head) && head[0] != '0'
    requires |low| == 3 && forall i :: 0 <= i < 3 ==> IsDigit(low[i])
    ensures Grouped(head + "," + low) && (head + "," + low)[0] != '0'
  {
    var r := head + "," + low;
    forall i | 0 <= i < |r| ensures (r[i] == ',' <==> (|r| - i) % 4 == 0)
      && (r[i] != ',' ==> IsDigit(r[i]))
    {
      if i < |head| {
        assert r[i] == head[i];
        assert (|r| - i) % 4 == (|head| - i) % 4;
      } else if i > |head| {
        assert r[i] == low[i - |head| - 1];
      }
    }
  }

  /** One more group of three digits behind a comma multiplies the value
      read so far by 1000 and adds the group. */
  lemma GroupValue(head: string, v: nat, m: nat)
    requires DigitValue(head) == v && m < 1000
    ensures DigitValue(head + "," + PadLeft(Dec(m), 3, '0')) == v * 1000 + m
  {
    var low := PadLeft(Dec(m), 3, '0');
    assert Pow10(3) == 1000;
    DecLength(m, 3);
    DecValue(m);
    ZeroPadValue(Dec(m), 3);
    AllDigitsCount(low);
    assert (head + ",")[..|head + ","| - 1] == head;
    DigitValueAppend(head + ",", low);
  }

  lemma {:induction false} AllDigitsCount(s: string)
    requires forall i :: 0 <= i < |s| ==> IsDigit(s[i])
    ensures DigitCount(s) == |s|
  {
    if |s| > 0 {
      AllDigitsCount(s[..|s| - 1]);
    }
  }

  /** Text without digits reads as 0. */
  lemma {:induction false} NoDigitsValue(s: string)
    requires forall i :: 0 <= i < |s| ==> !IsDigit(s[i])
    ensures DigitValue(s) == 0 && DigitCount(s) == 0
  {
    if |s| > 0 {
      NoDigitsValue(s[..|s| - 1]);
    }
  }

  /** A caption followed by a number reads as that number. */
  lemma CaptionedValue(caption: string, n: nat)
    requires forall i :: 0 <= i < |caption| ==> !IsDigit(caption[i])
    ensures DigitValue(caption + Dec(n)) == n
  {
    NoDigitsValue(caption);
    DecValue(n);
    DigitValueAppend(caption, Dec(n));
  }

  // ---------------------------------------------------------------------
  // Rounding and fixed-point rendering
  // ---------------------------------------------------------------------

  function Abs(x: real): (r: real)
    ensures r >= 0.0
    ensures r == x || r == -x
  {
    if x < 0.0 then -x else x
  }

  /** Round half to even, as Python's `round` and `format` do. */
  function RoundHalfEven(x: real): (k: int)
    ensures x - 0.5 <= k as real <= x + 0.5
    ensures k as real == x + 0.5 || k as real == x - 0.5 ==> k % 2 == 0
  {
    var f := x.Floor;
    var d := x - f as real;
    if d < 0.5 then f
    else if d > 0.5 then f + 1
    else if f % 2 == 0 then f
    else f + 1
  }

  /** The nearest integer is unique except at a tie, where the even one is
      chosen: any k meeting both conditions is `RoundHalfEven(x)`. */
  lemma RoundHalfEvenUnique(x: real, k: int)
    requires x - 0.5 <= k as real <= x + 0.5
    requires k as real == x + 0.5 || k as real == x - 0.5 ==> k % 2 == 0
    ensures k == RoundHalfEven(x)
  {
  }

  /** |x| scaled by 10^places and rounded: the digits `{x:.Nf}` prints. */
  function Scaled(x: real, places: nat): (k: nat)
    ensures Abs(x) * Pow10(places) as real - 0.5 <= k as real <= Abs(x) * Pow10(places) as real + 0.5
  {
    var k := RoundHalfEven(Abs(x) * Pow10(places) as real);
    assert k as real >= -0.5;
    k
  }

  /** r ends with a point followed by exactly `places` digits. */
  predicate PointThenDigits(r: string, places: nat) {
    |r| > places && r[|r| - places - 1] == '.'
    && forall i :: |r| - places <= i < |r| ==> IsDigit(r[i])
  }

  /** r's integer part, between the optional minus sign and the point that
      precedes the `places` fraction digits, is canonical and spells q. */
  predicate WholePartIs(r: string, negative: bool, places: nat, q: int) {
    var s := if negative then 1 else 0;
    var e := if places > 0 then |r| - places - 1 else |r|;
    s <= e <= |r| && Canonical(r[s..e]) && DigitValue(r[s..e]) == q
  }

  /** `format(x, ".Nf")`: sign, integer part, point, exactly N fraction digits.
      A negative x keeps its minus sign even when it rounds to zero. */
  function FormatFixed(x: real, places: nat): string
  {
    FixedText(x < 0.0, Scaled(x, places), places)
  }

  /** The text of a fixed-point rendering, given its sign and its scaled,
      rounded magnitude k: k / 10^N before the point, k % 10^N after it. */
  function FixedText(negative: bool, k: nat, places: nat): string
  {
    var p := Pow10(places);
    var sign := if negative then "-" else "";
    DivModNat(k, p);
    if places == 0 then sign + Dec(k)
    else sign + Dec(k / p) + "." + PadLeft(Dec(k % p), places, '0')
  }

  /** What `format(x, ".Nf")` prints reads back as the scaled, rounded
      value, with the minus sign exactly for negative x and exactly N digits
      after the point. */
  lemma FormatFixedReadsBack(x: real, places: nat)
    ensures DigitValue(FormatFixed(x, places)) == Scaled(x, places)
    ensures FormatFixed(x, places)[0] == '-' <==> x < 0.0
    ensures places > 0 ==> PointThenDigits(FormatFixed(x, places), places)
    ensures WholePartIs(FormatFixed(x, places), x < 0.0, places, Scaled(x, places) / Pow10(places))
  {
    var k := Scaled(x, places);
    assert FormatFixed(x, places) == FixedText(x < 0.0, k, places);
    FixedTextReadsBack(x < 0.0, k, places);
  }

  lemma FixedTextReadsBack(negative: bool, k: nat, places: nat)
    ensures DigitValue(FixedText(negative, k, places)) == k
    ensures FixedText(negative, k, places)[0] == '-' <==> negative
    ensures places > 0 ==> PointThenDigits(FixedText(negative, k, places), places)
    ensures WholePartIs(FixedText(negative, k, places), negative, places, k / Pow10(places))
  {
    var r := FixedText(negative, k, places);
    var sign := if negative then "-" else "";
    SignValue(negative);
    if places == 0 {
      WholeReadsBack(negative, k, sign, r);
      BareWhole(negative, k, sign, r);
    } else {
      PointReadsBack(negative, k, places, sign, r);
      PointWhole(negative, k, places, sign, r);
    }
  }

  lemma WholeReadsBack(negative: bool, k: nat, sign: string, r: string)
    requires sign == (if negative then "-" else "")
    requires DigitValue(sign) == 0 && DigitCount(sign) == 0
    requires r == FixedText(negative, k, 0)
    ensures DigitValue(r) == k
    ensures r[0] == '-' <==> negative
  {
    assert r == sign + Dec(k);
    DecValue(k);
    DigitValueAppend(sign, Dec(k));
    SignFirst(sign, Dec(k), "");
    assert sign + Dec(k) + "" == r;
  }

  lemma PointReadsBack(negative: bool, k: nat, places: nat, sign: string, r: string)
    requires places > 0
    requires sign == (if negative then "-" else "")
    requires DigitValue(sign) == 0 && DigitCount(sign) == 0
    requires r == FixedText(negative, k, places)
    ensures DigitValue(r) == k
    ensures r[0] == '-' <==> negative
    ensures PointThenDigits(r, places)
  {
    var p := Pow10(places);
    DivModNat(k, p);
    var whole := Dec(k / p);
    assert r == sign + whole + "." + PadLeft(Dec(k % p), places, '0');
    FixedPartsValue(sign, k / p, k % p, places, r);
    SignFirst(sign, whole, "." + PadLeft(Dec(k % p), places, '0'));
  }

  /** A rendering without a fraction is all integer part: `str(k)`. */
  lemma BareWhole(negative: bool, k: nat, sign: string, r: string)
    requires sign == (if negative then "-" else "")
    requires r == FixedText(negative, k, 0)
    ensures WholePartIs(r, negative, 0, k / Pow10(0))
  {
    assert r == sign + Dec(k);
    assert r[|sign|..|r|] == Dec(k);
    DecCanonical(k);
    DecValue(k);
  }

  /** The integer part of a rendering with a fraction: `str(k // 10^N)`. */
  lemma PointWhole(negative: bool, k: nat, places: nat, sign: string, r: string)
    requires places > 0
    requires sign == (if negative then "-" else "")
    requires r == FixedText(negative, k, places)
    ensures WholePartIs(r, negative, places, k / Pow10(places))
  {
    var p := Pow10(places);
    DivModNat(k, p);
    var whole := Dec(k / p);
    var frac := PadLeft(Dec(k % p), places, '0');
    assert r == sign + whole + ("." + frac);
    FractionDigits(k % p, places);
    DecCanonical(k / p);
    DecValue(k / p);
    Between(sign, whole, "." + frac);
    assert |r| - places - 1 == |sign| + |whole|;
  }

  /** The middle of a three-part string. */
  lemma Between(a: string, b: string, c: string)
    ensures (a + b + c)[|a|..|a| + |b|] == b
  {
    var r := a + b + c;
    forall i | 0 <= i < |b| ensures r[|a| + i] == b[i] {
    }
  }

  /** A rendering starting with a digit begins with '-' exactly when a
      minus sign is put in front. */
  lemma SignFirst(sign: string, digits: string, tail: string)
    requires sign == "-" || sign == ""
    requires |digits| > 0 && IsDigit(digits[0])
    ensures (sign + digits + tail)[0] == '-' <==> sign == "-"
  {
  }

  lemma SignValue(negative: bool)
    ensures var sign := if negative then "-" else "";
      DigitValue(sign) == 0 && DigitCount(sign) == 0
  {
    if negative {
      assert "-"[..0] == [];
    }
  }

  lemma FixedPartsValue(sign: string, q: nat, m: nat, places: nat, r: string)
    requires places > 0 && m < Pow10(places)
    requires DigitValue(sign) == 0 && DigitCount(sign) == 0
    requires r == sign + Dec(q) + "." + PadLeft(Dec(m), places, '0')
    ensures DigitValue(r) == q * Pow10(places) + m
    ensures PointThenDigits(r, places)
  {
    var head := sign + Dec(q) + ".";
    var frac := PadLeft(Dec(m), places, '0');
    FractionDigits(m, places);
    WholeDigits(sign, q);
    DigitValueAppend(head, frac);
    PointBeforeDigits(head, frac);
  }

  /** The fraction field: exactly `places` digits spelling m. */
  lemma FractionDigits(m: nat, places: nat)
    requires m < Pow10(places)
    ensures var frac := PadLeft(Dec(m), places, '0');
      && |frac| == Max(places, 1) && DigitValue(frac) == m && DigitCount(frac) == |frac|
      && forall i :: 0 <= i < |frac| ==> IsDigit(frac[i])
  {
    var frac := PadLeft(Dec(m), places, '0');
    DecLength(m, places);
    DecValue(m);
    ZeroPadValue(Dec(m), places);
    AllDigitsCount(frac);
  }

  /** The sign, the integer part and the point read as the integer part. */
  lemma WholeDigits(sign: string, q: nat)
    requires DigitValue(sign) == 0 && DigitCount(sign) == 0
    ensures DigitValue(sign + Dec(q) + ".") == q
  {
    var head := sign + Dec(q) + ".";
    DecValue(q);
    DigitValueAppend(sign, Dec(q));
    assert head[..|head| - 1] == sign + Dec(q);
  }

  lemma PointBeforeDigits(head: string, frac: string)
    requires |head| > 0 && head[|head| - 1] == '.'
    requires forall i :: 0 <= i < |frac| ==> IsDigit(frac[i])
    ensures var r := head + frac;
      r[|r| - |frac| - 1] == '.' && forall i :: |r| - |frac| <= i < |r| ==> IsDigit(r[i])
  {
    var r := head + frac;
    assert r[|r| - |frac| - 1] == head[|head| - 1];
    forall i | |r| - |frac| <= i < |r| ensures IsDigit(r[i]) {
      assert r[i] == frac[i - |head|];
    }
  }

  /** `str(round(x, 2))` for a non-negative x below 10^16: Python prints the
      shortest decimal that reads back, so a trailing zero in the hundredths
      is dropped but one fraction digit always remains. */
  function Repr2(x: real): (r: string)
    requires x >= 0.0
  {
    HundredthsText(Scaled(x, 2))
  }

  /** The text of `str(round(x, 2))` for the scaled, rounded k = 100·x:
      whole part, point, and the hundredths without a trailing zero. */
  function HundredthsText(k: nat): string {
    var c := k % 100;
    if c % 10 == 0 then Dec(k / 100) + "." + Dec(c / 10)
    else Dec(k / 100) + "." + PadLeft(Dec(c), 2, '0')
  }

  /** The printed digits of `str(round(x, 2))` spell x to the nearest
      hundredth: read with one fraction digit when the point is second to
      last, with two otherwise. */
  lemma Repr2ReadsBack(x: real)
    requires x >= 0.0
    ensures var r := Repr2(x);
      |r| >= 3 &&
      (if r[|r| - 2] == '.' then 10 * DigitValue(r) else DigitValue(r)) == Scaled(x, 2)
      && (r[|r| - 2] == '.' || r[|r| - 3] == '.')
    ensures HundredthsShape(Repr2(x), Scaled(x, 2) / 100)
  {
    var k := Scaled(x, 2);
    assert Repr2(x) == HundredthsText(k);
    HundredthsReadsBack(k);
    HundredthsTextShape(k);
  }

  /** The shape of `str(round(x, 2))`: the canonical integer part q, a
      point, then one or two fraction digits, and no trailing zero when
      there are two. */
  predicate HundredthsShape(r: string, q: int) {
    && (PointThenDigits(r, 1) || PointThenDigits(r, 2))
    && (PointThenDigits(r, 2) ==> r[|r| - 1] != '0')
    && var w := r[..|r| - (if PointThenDigits(r, 1) then 2 else 3)];
      Canonical(w) && DigitValue(w) == q
  }

  lemma HundredthsTextShape(k: nat)
    ensures HundredthsShape(HundredthsText(k), k / 100)
  {
    var c := k % 100;
    var whole := Dec(k / 100);
    DecCanonical(k / 100);
    DecValue(k / 100);
    if c % 10 == 0 {
      OneFractionDigit(whole, c / 10);
    } else {
      TwoFractionDigits(whole, c);
    }
  }

  lemma OneFractionDigit(whole: string, d: nat)
    requires d < 10
    ensures var r := whole + "." + Dec(d);
      PointThenDigits(r, 1) && r[..|r| - 2] == whole
  {
    var r := whole + "." + Dec(d);
    assert Dec(d) == [DigitChar(d)];
    assert r[..|r| - 2] == whole;
  }

  lemma TwoFractionDigits(whole: string, c: nat)
    requires c < 100 && c % 10 != 0
    ensures var r := whole + "." + PadLeft(Dec(c), 2, '0');
      PointThenDigits(r, 2) && !PointThenDigits(r, 1) && r[|r| - 1] != '0' && r[..|r| - 3] == whole
  {
    var tail := PadLeft(Dec(c), 2, '0');
    var r := whole + "." + tail;
    assert Pow10(2) == 100;
    FractionDigits(c, 2);
    DecLast(c);
    assert r[|r| - 1] == tail[1] == Dec(c)[|Dec(c)| - 1];
    assert r[|r| - 3] == '.' && r[|r| - 2] == tail[0];
    assert r[..|r| - 3] == whole;
  }

  /** The last digit of `str(n)` is n's units digit. */
  lemma DecLast(n: nat)
    ensures Dec(n)[|Dec(n)| - 1] == DigitChar(n % 10)
  {
  }

  lemma HundredthsReadsBack(k: nat)
    ensures var r := HundredthsText(k);
      |r| >= 3 &&
      (if r[|r| - 2] == '.' then 10 * DigitValue(r) else DigitValue(r)) == k
      && (r[|r| - 2] == '.' || r[|r| - 3] == '.')
  {
    var c := k % 100;
    if c % 10 == 0 {
      TenthsReadBack(k / 100, c / 10);
    } else {
      HundredthsReadBack(k / 100, c);
    }
  }

  /** A whole part, a point and one digit. */
  lemma TenthsReadBack(q: nat, d: nat)
    requires d < 10
    ensures var r := Dec(q) + "." + Dec(d);
      |r| >= 3 && r[|r| - 2] == '.' && DigitValue(r) == q * 10 + d
  {
    PointValue(q);
    DecValue(d);
    DigitValueAppend(Dec(q) + ".", Dec(d));
  }

  /** A whole part followed by the point reads as the whole part. */
  lemma PointValue(q: nat)
    ensures DigitValue(Dec(q) + ".") == q
  {
    var whole := Dec(q);
    DecValue(q);
    assert (whole + ".")[..|whole + "."| - 1] == whole;
  }

  /** A whole part, a point and two digits, the second not zero. */
  lemma HundredthsReadBack(q: nat, c: nat)
    requires c < 100
    ensures var r := Dec(q) + "." + PadLeft(Dec(c), 2, '0');
      |r| >= 3 && r[|r| - 3] == '.' && r[|r| - 2] != '.' && DigitValue(r) == q * 100 + c
  {
    var whole := Dec(q);
    var tail := PadLeft(Dec(c), 2, '0');
    PointValue(q);
    assert Pow10(2) == 100;
    FractionDigits(c, 2);
    DigitValueAppend(whole + ".", tail);
    var r := whole + "." + tail;
    assert r[|r| - 2] == tail[0];
  }
}
