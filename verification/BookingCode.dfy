/** The text of a booking code: printed by generateBookingCode, read back by getCurrentBookingCode. */
module BookingCode {
  import opened Wrappers
  import opened Text

  const WIDTH := 7
  /** The largest number that fits the padding width. */
  const LAST_PADDED := 9_999_999

  function CityPart(cityCode: nat): string {
    if cityCode < 10 then PadStart(ToString(cityCode), 2, '0') else ToString(cityCode)
  }

  function CodePrefix(cityCode: nat, year: nat, month: nat): string {
    "704" + ['-'] + CityPart(cityCode) + ['-'] + (ToString(year) + ToString(month)) + ['-']
  }

  function CodeText(cityCode: nat, year: nat, month: nat, n: nat): string {
    CodePrefix(cityCode, year, month) + PadStart(ToString(n), WIDTH, '0')
  }

  /** generateBookingCode; num is None when the stored code had no number to parse (NaN). */
  function GenerateBookingCode(num: Option<nat>, cityCode: nat, year: nat, month: nat): string {
    match num
    case Some(n) => CodeText(cityCode, year, month, n + 1)
    case None => CodePrefix(cityCode, year, month) + PadStart("NaN", WIDTH, '0')
  }

  /** getCurrentBookingCode over the codes the query matched: 0 on no row, else the number in the MAX. */
  function CurrentNumber(codes: seq<string>): Option<nat> {
    match MaxText(codes)
    case None => Some(0)
    case Some(code) => if code == "" then Some(0) else ParseInt(LastPart(code, '-'))
  }

  /** The layout of an allocated code: country, city in two digits or more, year and month, and seven digits or more. */
  lemma CodeLayout(cityCode: nat, year: nat, month: nat, n: nat) returns (zeros: string)
    ensures var city := if cityCode < 10 then "0" + ToString(cityCode) else ToString(cityCode);
            GenerateBookingCode(Some(n), cityCode, year, month)
            == "704-" + city + "-" + (ToString(year) + ToString(month)) + "-" + (zeros + ToString(n + 1))
    ensures forall i :: 0 <= i < |zeros| ==> zeros[i] == '0'
    ensures |zeros + ToString(n + 1)| >= 7 && (zeros != [] ==> |zeros + ToString(n + 1)| == 7)
  {
    zeros := Zeros(ToString(n + 1), 7);
    if cityCode < 10 {
      var zero := Zeros(ToString(cityCode), 2);
      assert zero == "0";
    }
    Dashes(CityPart(cityCode), ToString(year) + ToString(month), PadStart(ToString(n + 1), WIDTH, '0'));
  }

  /** What padStart puts in front. */
  lemma Zeros(s: string, width: nat) returns (zeros: string)
    ensures PadStart(s, width, '0') == zeros + s
    ensures forall i :: 0 <= i < |zeros| ==> zeros[i] == '0'
    ensures |zeros| == if |s| < width then width - |s| else 0
  {
    zeros := if |s| >= width then "" else seq(width - |s|, _ => '0');
  }

  lemma Dashes(city: string, ym: string, number: string)
    ensures "704" + ['-'] + city + ['-'] + ym + ['-'] + number == "704-" + city + "-" + ym + "-" + number
  {
    assert "704" + ['-'] == "704-" && ['-'] == "-";
  }

  lemma DigitsHaveNoDash(s: string)
    requires AllDigits(s)
    ensures '-' !in s
  {}

  /** Parsing the last part of a printed code gives its number back. */
  lemma ReadBack(cityCode: nat, year: nat, month: nat, n: nat)
    ensures ParseInt(LastPart(CodeText(cityCode, year, month, n), '-')) == Some(n)
  {
    var pad := PadStart(ToString(n), WIDTH, '0');
    PaddedNumber(n, WIDTH);
    DigitsHaveNoDash(pad);
    var body := "704" + ['-'] + CityPart(cityCode) + ['-'] + (ToString(year) + ToString(month));
    assert CodeText(cityCode, year, month, n) == body + ['-'] + pad;
    LastPartAfter(body, '-', pad);
    ParsePadded(n, WIDTH);
  }

  lemma CityPartInjective(c1: nat, c2: nat)
    ensures AllDigits(CityPart(c1))
    ensures CityPart(c1) == CityPart(c2) ==> c1 == c2
  {
    PaddedNumber(c1, 2);
    PaddedNumber(c2, 2);
    ValueOfToString(c1);
    ValueOfToString(c2);
  }

  /** Year and month are printed without a separator; four-digit years make the pair readable. */
  lemma YearMonthInjective(y1: nat, m1: nat, y2: nat, m2: nat)
    requires 1000 <= y1 <= 9999 && 1000 <= y2 <= 9999
    requires ToString(y1) + ToString(m1) == ToString(y2) + ToString(m2)
    ensures y1 == y2 && m1 == m2
  {
    FourDigits(y1);
    FourDigits(y2);
    var s1, s2 := ToString(y1) + ToString(m1), ToString(y2) + ToString(m2);
    assert s1[..4] == ToString(y1) && s1[4..] == ToString(m1);
    assert s2[..4] == ToString(y2) && s2[4..] == ToString(m2);
    ValueOfToString(y1);
    ValueOfToString(y2);
    ValueOfToString(m1);
    ValueOfToString(m2);
  }

  lemma FourDigits(y: nat)
    requires 1000 <= y <= 9999
    ensures |ToString(y)| == 4
  {
    assert |ToString(y / 100)| == 2;
    assert |ToString(y / 10)| == 3;
  }

  lemma PeelLastPart(p1: string, t1: string, p2: string, t2: string)
    requires AllDigits(t1) && AllDigits(t2)
    requires p1 + ['-'] + t1 == p2 + ['-'] + t2
    ensures p1 == p2 && t1 == t2
  {
    LastPartAfter(p1, '-', t1);
    LastPartAfter(p2, '-', t2);
    assert p1 == (p1 + ['-'] + t1)[..|p1|] && p2 == (p2 + ['-'] + t2)[..|p2|];
  }

  /** Two printed codes are equal only for the same city, year, month and number. */
  lemma CodeTextInjective(c1: nat, y1: nat, m1: nat, n1: nat, c2: nat, y2: nat, m2: nat, n2: nat)
    requires 1000 <= y1 <= 9999 && 1000 <= y2 <= 9999
    requires CodeText(c1, y1, m1, n1) == CodeText(c2, y2, m2, n2)
    ensures c1 == c2 && y1 == y2 && m1 == m2 && n1 == n2
  {
    var city1, city2 := "704" + ['-'] + CityPart(c1), "704" + ['-'] + CityPart(c2);
    var ym1, ym2 := ToString(y1) + ToString(m1), ToString(y2) + ToString(m2);
    PaddedNumber(n1, WIDTH);
    PaddedNumber(n2, WIDTH);
    PeelLastPart(city1 + ['-'] + ym1, PadStart(ToString(n1), WIDTH, '0'),
                 city2 + ['-'] + ym2, PadStart(ToString(n2), WIDTH, '0'));
    PeelLastPart(city1, ym1, city2, ym2);
    YearMonthInjective(y1, m1, y2, m2);
    CityPartInjective(c1, c2);
    CityPartInjective(c2, c1);
    PeelLastPart("704", CityPart(c1), "704", CityPart(c2));
  }

  /** Inside one city and month, string order of codes is numeric order up to the padding width. */
  lemma OrderOfCodes(cityCode: nat, year: nat, month: nat, a: nat, b: nat)
    requires a <= LAST_PADDED && b <= LAST_PADDED
    ensures LexLeq(CodeText(cityCode, year, month, a), CodeText(cityCode, year, month, b)) <==> a <= b
  {
    var pa, pb := PadStart(ToString(a), WIDTH, '0'), PadStart(ToString(b), WIDTH, '0');
    SevenDigits();
    PaddedNumber(a, WIDTH);
    PaddedNumber(b, WIDTH);
    LexSamePrefix(CodePrefix(cityCode, year, month), pa, pb);
    LexIsNumeric(pa, pb);
  }

  lemma SevenDigits()
    ensures Pow10(WIDTH) == LAST_PADDED + 1
  {
    assert Pow10(3) == 1000;
    assert Pow10(7) == 10_000_000;
  }

  /** The first number past the width sorts below the last padded one. */
  lemma OverflowSortsBelow(cityCode: nat, year: nat, month: nat)
    ensures LexLeq(CodeText(cityCode, year, month, LAST_PADDED + 1), CodeText(cityCode, year, month, LAST_PADDED))
  {
    var over, last := PadStart(ToString(LAST_PADDED + 1), WIDTH, '0'), PadStart(ToString(LAST_PADDED), WIDTH, '0');
    assert ToString(1_000) == "1000";
    assert ToString(LAST_PADDED + 1) == ToString(1_000_000) + "0" == ToString(100_000) + "0" + "0";
    assert over[0] == '1';
    assert ToString(9_999) == "9999";
    assert ToString(LAST_PADDED) == "9999999";
    LexSamePrefix(CodePrefix(cityCode, year, month), over, last);
  }
}
