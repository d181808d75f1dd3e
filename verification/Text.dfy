/** Decimal printing, left padding, parsing, splitting and the string order used by SQL's MAX. */
module Text {
  import opened Wrappers

  predicate IsDigit(c: char) { '0' <= c <= '9' }

  predicate AllDigits(s: string) { forall i :: 0 <= i < |s| ==> IsDigit(s[i]) }

  function DigitChar(d: nat): (c: char)
    requires d < 10
    ensures IsDigit(c) && DigitValue(c) == d
  {
    ('0' as int + d) as char
  }

  function DigitValue(c: char): (d: nat)
    requires IsDigit(c)
    ensures d < 10
  {
    c as int - '0' as int
  }

  /** Number.prototype.toString for a natural number. */
  function ToString(n: nat): (s: string)
    ensures |s| > 0 && AllDigits(s)
    ensures n > 0 ==> s[0] != '0'
  {
    if n < 10 then [DigitChar(n)] else ToString(n / 10) + [DigitChar(n % 10)]
  }

  /** String.prototype.padStart with a one-character filler. */
  function PadStart(s: string, width: nat, fill: char): string {
    if |s| >= width then s else seq(width - |s|, _ => fill) + s
  }

  /** The number a digit string denotes, leading zeros included. */
  function Value(s: string): nat
    requires AllDigits(s)
  {
    if s == [] then 0 else Value(s[..|s| - 1]) * 10 + DigitValue(s[|s| - 1])
  }

  /** The longest digit prefix. */
  function DigitPrefix(s: string): (p: string)
    ensures p <= s && AllDigits(p)
    ensures |p| < |s| ==> !IsDigit(s[|p|])
  {
    if s == [] || !IsDigit(s[0]) then "" else [s[0]] + DigitPrefix(s[1..])
  }

  /** parseInt(s, 10) on text without a sign or leading blanks; None is NaN. */
  function ParseInt(s: string): Option<nat> {
    if DigitPrefix(s) == "" then None else Some(Value(DigitPrefix(s)))
  }

  /** The last element of s.split(sep). */
  function LastPart(s: string, sep: char): (t: string)
    ensures sep !in t
    ensures |t| <= |s| && t == s[|s| - |t|..]
  {
    if s == [] || s[|s| - 1] == sep then "" else LastPart(s[..|s| - 1], sep) + [s[|s| - 1]]
  }

  /** Code-point order on strings. */
  predicate LexLeq(a: string, b: string) {
    a == [] || (b != [] && (a[0] < b[0] || (a[0] == b[0] && LexLeq(a[1..], b[1..]))))
  }

  /** SELECT MAX(column): the greatest of the rows in string order, null on no rows. */
  function MaxText(ss: seq<string>): (m: Option<string>)
    ensures m.None? <==> ss == []
    ensures m.Some? ==> m.value in ss
  {
    if ss == [] then None
    else
      var rest := MaxText(ss[1..]);
      if rest.Some? && LexLeq(ss[0], rest.value) then rest else Some(ss[0])
  }

  lemma {:induction false} ValueOfSnoc(s: string, c: char)
    requires AllDigits(s) && IsDigit(c)
    ensures AllDigits(s + [c]) && Value(s + [c]) == Value(s) * 10 + DigitValue(c)
  {
    assert (s + [c])[..|s|] == s;
  }

  lemma {:induction false} ValueOfToString(n: nat)
    ensures Value(ToString(n)) == n
  {
    if n < 10 {
      ValueOfSnoc("", DigitChar(n));
      assert "" + [DigitChar(n)] == [DigitChar(n)];
    } else {
      ValueOfToString(n / 10);
      ValueOfSnoc(ToString(n / 10), DigitChar(n % 10));
    }
  }

  lemma {:induction false} LengthOfToString(n: nat, width: nat, bound: nat)
    requires width >= 1 && bound == Pow10(width) && n < bound
    ensures |ToString(n)| <= width
  {
    if n >= 10 {
      LengthOfToString(n / 10, width - 1, bound / 10);
    }
  }

  function Pow10(k: nat): nat { if k == 0 then 1 else 10 * Pow10(k - 1) }

  lemma {:induction false} LeadingZeros(k: nat, s: string)
    requires AllDigits(s)
    ensures AllDigits(seq(k, _ => '0') + s) && Value(seq(k, _ => '0') + s) == Value(s)
  {
    var z := seq(k, _ => '0');
    if s == [] {
      if k > 0 {
        LeadingZeros(k - 1, "");
        assert z + s == (seq(k - 1, _ => '0') + "") + ['0'];
        ValueOfSnoc(seq(k - 1, _ => '0') + "", '0');
      } else {
        assert z + s == "";
      }
    } else {
      LeadingZeros(k, s[..|s| - 1]);
      assert z + s == (z + s[..|s| - 1]) + [s[|s| - 1]];
      ValueOfSnoc(z + s[..|s| - 1], s[|s| - 1]);
    }
  }

  /** A padded print keeps the number, and has exactly the width when the number fits it. */
  lemma PaddedNumber(n: nat, width: nat)
    requires width >= 1
    ensures var s := PadStart(ToString(n), width, '0');
            && AllDigits(s) && |s| >= width && Value(s) == n
            && (n < Pow10(width) ==> |s| == width)
  {
    ValueOfToString(n);
    if |ToString(n)| < width {
      LeadingZeros(width - |ToString(n)|, ToString(n));
    }
    if n < Pow10(width) {
      LengthOfToString(n, width, Pow10(width));
    }
  }

  lemma {:induction false} DigitPrefixOfDigits(s: string)
    requires AllDigits(s)
    ensures DigitPrefix(s) == s
  {
    if s != [] {
      DigitPrefixOfDigits(s[1..]);
    }
  }

  /** parseInt(print(n)) == n, at any padding width. */
  lemma ParsePadded(n: nat, width: nat)
    requires width >= 1
    ensures ParseInt(PadStart(ToString(n), width, '0')) == Some(n)
  {
    PaddedNumber(n, width);
    DigitPrefixOfDigits(PadStart(ToString(n), width, '0'));
  }

  lemma {:induction false} LexReflexive(a: string)
    ensures LexLeq(a, a)
  {
    if a != [] { LexReflexive(a[1..]); }
  }

  lemma {:induction false} LexTotal(a: string, b: string)
    ensures LexLeq(a, b) || LexLeq(b, a)
  {
    if a != [] && b != [] { LexTotal(a[1..], b[1..]); }
  }

  lemma {:induction false} LexAntisymmetric(a: string, b: string)
    requires LexLeq(a, b) && LexLeq(b, a)
    ensures a == b
  {
    if a != [] && b != [] {
      LexAntisymmetric(a[1..], b[1..]);
      assert a == [a[0]] + a[1..] && b == [b[0]] + b[1..];
    }
  }

  lemma {:induction false} LexTransitive(a: string, b: string, c: string)
    requires LexLeq(a, b) && LexLeq(b, c)
    ensures LexLeq(a, c)
  {
    if a != [] && a[0] == b[0] && b[0] == c[0] { LexTransitive(a[1..], b[1..], c[1..]); }
  }

  lemma {:induction false} LexSamePrefix(p: string, a: string, b: string)
    ensures LexLeq(p + a, p + b) <==> LexLeq(a, b)
  {
    if p == [] {
      assert p + a == a && p + b == b;
    } else {
      LexSamePrefix(p[1..], a, b);
      assert (p + a)[1..] == p[1..] + a && (p + b)[1..] == p[1..] + b;
    }
  }

  lemma {:induction false} LexSnoc(a: string, x: char, b: string, y: char)
    requires |a| == |b|
    ensures LexLeq(a + [x], b + [y]) <==> if a == b then x <= y else LexLeq(a, b)
  {
    if a != [] {
      assert (a + [x])[1..] == a[1..] + [x] && (b + [y])[1..] == b[1..] + [y];
      LexSnoc(a[1..], x, b[1..], y);
      assert a == [a[0]] + a[1..] && b == [b[0]] + b[1..];
      if a[0] == b[0] { assert a == b <==> a[1..] == b[1..]; }
    }
  }

  /** On digit strings of one length, string order is numeric order and equal numbers are equal strings. */
  lemma {:induction false} LexIsNumeric(a: string, b: string)
    requires |a| == |b| && AllDigits(a) && AllDigits(b)
    ensures LexLeq(a, b) <==> Value(a) <= Value(b)
    ensures a == b <==> Value(a) == Value(b)
  {
    if a != [] {
      var n := |a| - 1;
      LexIsNumeric(a[..n], b[..n]);
      LexSnoc(a[..n], a[n], b[..n], b[n]);
      assert a == a[..n] + [a[n]] && b == b[..n] + [b[n]];
    }
  }

  /** SQL's MAX is an upper bound of its rows. */
  lemma {:induction false} MaxTextIsGreatest(ss: seq<string>, i: nat)
    requires i < |ss|
    ensures LexLeq(ss[i], MaxText(ss).value)
  {
    var rest := MaxText(ss[1..]);
    if i == 0 {
      LexReflexive(ss[0]);
    } else {
      MaxTextIsGreatest(ss[1..], i - 1);
      if !LexLeq(ss[0], rest.value) {
        LexTotal(ss[0], rest.value);
        LexTransitive(ss[i], rest.value, ss[0]);
      }
    }
  }

  /** A member that bounds every row is the maximum. */
  lemma MaxTextIs(ss: seq<string>, m: string)
    requires m in ss && forall i :: 0 <= i < |ss| ==> LexLeq(ss[i], m)
    ensures MaxText(ss) == Some(m)
  {
    var k :| 0 <= k < |ss| && ss[k] == m;
    MaxTextIsGreatest(ss, k);
    var j :| 0 <= j < |ss| && ss[j] == MaxText(ss).value;
    assert LexLeq(ss[j], m);
    LexAntisymmetric(MaxText(ss).value, m);
  }

  lemma {:induction false} LastPartAfter(p: string, sep: char, t: string)
    requires sep !in t
    ensures LastPart(p + [sep] + t, sep) == t
  {
    var s := p + [sep] + t;
    if t != [] {
      assert s[..|s| - 1] == p + [sep] + t[..|t| - 1];
      LastPartAfter(p, sep, t[..|t| - 1]);
      assert t == t[..|t| - 1] + [t[|t| - 1]];
    }
  }
}
