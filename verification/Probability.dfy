/**
 * The probability field of a rule: its grammar, the value it is read as, and the parser.
 *
 * A double holds every count below 10^15 and every power of ten up to 10^15 exactly, so the
 * parser's accumulators are integers here; the final quotient is a rational.
 */
module Probability {
  import opened Options
  import opened Decimals

  /** Decimals that count; later ones are validated and ignored. */
  const PLACES: nat := 15
  const FULL_SCALE: nat := 1_000_000_000_000_000

  predicate IsBlank(c: char) {
    c == ' ' || c == '\t' || c == '\r' || c == '\n'
  }

  predicate AllZeros(digits: string) {
    forall i | 0 <= i < |digits| :: digits[i] == '0'
  }

  /** The grammar: `0`, `1`, `0.` and digits, or `1.` and zeros; then blanks. */
  ghost predicate Form(text: string, whole: char, decimals: string, blanks: string) {
    && (whole == '0' || whole == '1')
    && AllDigits(decimals)
    && (whole == '1' ==> AllZeros(decimals))
    && (forall i | 0 <= i < |blanks| :: blanks[i] == ' ' || blanks[i] == '\t' || blanks[i] == '\r' || blanks[i] == '\n')
    && text == [whole] + (if decimals == "" then "" else "." + decimals) + blanks
  }

  function Kept(decimals: string): string {
    if |decimals| <= PLACES then decimals else decimals[..PLACES]
  }

  function Ratio(above: nat, below: nat): real
    requires below >= 1
  {
    above as real / below as real
  }

  /** The number the field says. */
  function Written(whole: char, decimals: string): real
    requires AllDigits(decimals)
  {
    (if whole == '1' then 1.0 else 0.0) + Ratio(Value(decimals), Pow10(|decimals|))
  }

  /** The number the field is read as. */
  function Meaning(whole: char, decimals: string): real
    requires AllDigits(decimals)
  {
    if whole == '1' then 1.0 else Ratio(Value(Kept(decimals)), Pow10(|Kept(decimals)|))
  }

  // ---- The value ---------------------------------------------------------------------------

  lemma FullScale()
    ensures Pow10(PLACES) == FULL_SCALE && Pow10(PLACES - 1) < FULL_SCALE
  {
    assert Pow10(3) == 1_000;
    assert Pow10(6) == 1_000_000 by { Pow10Sum(3, 3); }
    assert Pow10(12) == 1_000_000_000_000 by { Pow10Sum(6, 6); }
    Pow10Sum(12, 3);
  }

  lemma CrossMultiply(above: nat, below: nat, value: real)
    requires below >= 1
    ensures Ratio(above, below) == value <==> above as real == value * below as real
    ensures Ratio(above, below) < value <==> (above as real) < value * below as real
  {
    assert Ratio(above, below) * below as real == above as real;
  }

  lemma RatioAtMostOne(above: nat, below: nat)
    requires above < below
    ensures 0.0 <= Ratio(above, below) < 1.0
  {
    CrossMultiply(above, below, 1.0);
    CrossMultiply(above, below, 0.0);
  }

  /** Appending digits to a fraction adds less than one unit of its last place. */
  lemma FinerFraction(high: nat, coarse: nat, fine: nat, low: nat)
    requires coarse >= 1 && low < fine
    ensures coarse * fine >= 1
    ensures Ratio(high, coarse) <= Ratio(high * fine + low, coarse * fine) < Ratio(high, coarse) + Ratio(1, coarse)
  {
    assert coarse * fine >= 1;
    var value, unit := Ratio(high, coarse), Ratio(1, coarse);
    var c, f := coarse as real, fine as real;
    assert value * c == high as real && unit * c == 1.0;
    assert (coarse * fine) as real == c * f;
    assert (high * fine + low) as real == high as real * f + low as real;
    assert value * (c * f) == (value * c) * f;
    assert (value + unit) * (c * f) == (value * c) * f + (unit * c) * f;
    CrossMultiply(high * fine + low, coarse * fine, value);
    CrossMultiply(high * fine + low, coarse * fine, value + unit);
  }

  lemma {:induction false} ZerosAreZero(digits: string)
    requires AllDigits(digits) && AllZeros(digits)
    ensures Value(digits) == 0
  {
    if digits != "" {
      ZerosAreZero(digits[..|digits| - 1]);
    }
  }

  /** Below one, keeping fifteen places loses less than one unit of the last. */
  lemma CutFraction(decimals: string)
    requires AllDigits(decimals)
    ensures var value := Meaning('0', decimals);
            && 0.0 <= value < 1.0
            && value <= Written('0', decimals) < value + Ratio(1, FULL_SCALE)
            && (|decimals| <= PLACES ==> value == Written('0', decimals))
  {
    var kept := Kept(decimals);
    ValueBound(kept);
    RatioAtMostOne(Value(kept), Pow10(|kept|));
    if |decimals| > PLACES {
      var rest := decimals[PLACES..];
      assert decimals == kept + rest;
      ValueSplit(kept, rest);
      ValueBound(rest);
      Pow10Sum(PLACES, |rest|);
      FullScale();
      FinerFraction(Value(kept), FULL_SCALE, Pow10(|rest|), Value(rest));
    } else {
      CrossMultiply(1, FULL_SCALE, 0.0);
    }
  }

  /** The value read is in [0, 1]: the written one, cut after fifteen places. */
  lemma TruncatedToFifteenPlaces(text: string, whole: char, decimals: string, blanks: string)
    requires Form(text, whole, decimals, blanks)
    ensures var value := Meaning(whole, decimals);
            && 0.0 <= value <= 1.0
            && value <= Written(whole, decimals) < value + Ratio(1, FULL_SCALE)
            && (|decimals| <= PLACES ==> value == Written(whole, decimals))
  {
    if whole == '1' {
      ZerosAreZero(decimals);
      CrossMultiply(0, Pow10(|decimals|), 0.0);
      CrossMultiply(1, FULL_SCALE, 0.0);
    } else {
      CutFraction(decimals);
    }
  }

  // ---- The parser --------------------------------------------------------------------------

  /** Where the trailing blanks of a field start. */
  function BlanksAt(decimals: string): nat {
    if decimals == "" then 1 else 2 + |decimals|
  }

  lemma FormShape(text: string, whole: char, decimals: string, blanks: string)
    requires Form(text, whole, decimals, blanks)
    ensures BlanksAt(decimals) <= |text| && text[0] == whole && blanks == text[BlanksAt(decimals)..]
    ensures decimals != "" ==> text[1] == '.' && text[2..BlanksAt(decimals)] == decimals
    ensures forall i | 2 <= i < BlanksAt(decimals) :: IsDigit(text[i]) && text[i] == decimals[i - 2]
    ensures forall i | BlanksAt(decimals) <= i < |text| :: IsBlank(text[i])
  {
    var at := BlanksAt(decimals);
    assert text[at..] == blanks;
    forall i | at <= i < |text| ensures IsBlank(text[i]) {
      assert text[i] == blanks[i - at];
    }
    if decimals != "" {
      assert text[2..at] == decimals;
      forall i | 2 <= i < at ensures IsDigit(text[i]) && text[i] == decimals[i - 2] {
        assert text[2..at][i - 2] == text[i];
      }
    }
  }

  /** In a text of the grammar with a point, the decimals are the digits after it. */
  lemma DecimalsAreTheDigits(text: string, whole: char, decimals: string, blanks: string, end: nat)
    requires Form(text, whole, decimals, blanks)
    requires |text| >= 2 && text[1] == '.' && 2 <= end <= |text| && forall i | 2 <= i < end :: IsDigit(text[i])
    ensures decimals != "" && end <= BlanksAt(decimals)
    ensures whole == '1' ==> forall i | 2 <= i < end :: text[i] == '0'
    ensures end == |text| || !IsDigit(text[end]) ==> decimals == text[2..end]
  {
    FormShape(text, whole, decimals, blanks);
    var at := BlanksAt(decimals);
    assert at < |text| ==> IsBlank(text[at]);
  }

  /** The counters after reading some decimals. */
  ghost predicate Counted(digits: string, decimals: nat, scale: nat) {
    && AllDigits(digits)
    && decimals == Value(Kept(digits)) && scale == Pow10(|Kept(digits)|)
    && decimals < scale <= FULL_SCALE
  }

  /** One more digit counts while the scale is below 10^15, and is ignored after that. */
  method CountDigit(ghost digits: string, digit: char, decimals: nat, scale: nat) returns (decimals': nat, scale': nat)
    requires Counted(digits, decimals, scale) && IsDigit(digit)
    ensures Counted(digits + [digit], decimals', scale')
  {
    FullScale();
    ghost var longer := digits + [digit];
    ValueBound(Kept(longer));
    if |digits| < PLACES {
      Pow10Monotone(|digits|, PLACES - 1);
      Pow10Monotone(|longer|, PLACES);
      assert longer[..|longer| - 1] == digits;
    } else {
      assert Kept(longer) == Kept(digits);
    }
    decimals', scale' := decimals, scale;
    if scale < FULL_SCALE {
      decimals' := decimals * 10 + DigitValue(digit);
      scale' := scale * 10;
    }
  }

  lemma OneMoreChar(text: string, from: nat, end: nat)
    requires from <= end < |text|
    ensures text[from..end + 1] == text[from..end] + [text[end]]
  {
  }

  /** Counts the run of digits from a first one on; after a leading one, stops at a non-zero digit. */
  method ScanDigits(text: string, one: bool) returns (end: nat, decimals: nat, scale: nat, ok: bool)
    requires |text| > 2 && IsDigit(text[2])
    ensures 2 < end <= |text| && forall i | 2 <= i < end :: IsDigit(text[i])
    ensures ok && one ==> forall i | 2 <= i < end :: text[i] == '0'
    ensures ok ==> (end == |text| || !IsDigit(text[end])) && Counted(text[2..end], decimals, scale)
    ensures !ok ==> one && text[end - 1] != '0'
  {
    assert Counted("", 0, 1);
    hide Counted;
    end, decimals, scale, ok := 2, 0, 1, true;
    ghost var digits := "";
    while end < |text| && IsDigit(text[end])
      invariant 2 <= end <= |text| && ok
      invariant forall i | 2 <= i < end :: IsDigit(text[i]) && (one ==> text[i] == '0')
      invariant digits == text[2..end] && Counted(digits, decimals, scale)
    {
      if one && text[end] != '0' {
        return end + 1, decimals, scale, false;
      }
      decimals, scale := CountDigit(digits, text[end], decimals, scale);
      OneMoreChar(text, 2, end);
      digits := digits + [text[end]];
      end := end + 1;
    }
  }

  /** Reads the digits after the point; a refusal means no field of the grammar starts so. */
  method ScanDecimals(text: string, one: bool) returns (end: nat, decimals: nat, scale: nat, ok: bool)
    requires |text| >= 2 && text[1] == '.'
    ensures 2 <= end <= |text| && forall i | 2 <= i < end :: IsDigit(text[i])
    ensures ok && one ==> forall i | 2 <= i < end :: text[i] == '0'
    ensures ok ==> end > 2 && (end == |text| || !IsDigit(text[end])) && Counted(text[2..end], decimals, scale)
    ensures !ok ==> (end == 2 && (end == |text| || !IsDigit(text[2]))) || (one && end > 2 && text[end - 1] != '0')
  {
    if |text| == 2 || !IsDigit(text[2]) {
      return 2, 0, 1, false;
    }
    end, decimals, scale, ok := ScanDigits(text, one);
  }

  method SkipBlanks(text: string, start: nat) returns (end: nat)
    requires start <= |text|
    ensures start <= end <= |text| && (end == |text| || !IsBlank(text[end]))
    ensures forall i | start <= i < end :: IsBlank(text[i])
  {
    end := start;
    while end < |text| && IsBlank(text[end])
      invariant start <= end <= |text| && forall i | start <= i < end :: IsBlank(text[i])
    {
      end := end + 1;
    }
  }

  /** A field in which everything from `end` on is its blanks. */
  ghost predicate Parts(text: string, digits: string, end: nat) {
    && text != "" && 1 <= end <= |text|
    && forall w, d, b | Form(text, w, d, b) :: w == text[0] && d == digits && b == text[end..]
  }

  lemma NoDecimals(text: string)
    requires text != "" && (|text| == 1 || text[1] != '.')
    ensures Parts(text, "", 1)
  {
    forall w, d, b | Form(text, w, d, b) ensures w == text[0] && d == "" && b == text[1..] {
      FormShape(text, w, d, b);
    }
  }

  lemma AllDecimals(text: string, end: nat)
    requires |text| >= 2 && text[1] == '.' && 2 < end <= |text| && (forall i | 2 <= i < end :: IsDigit(text[i]))
    requires end == |text| || !IsDigit(text[end])
    ensures Parts(text, text[2..end], end)
  {
    forall w, d, b | Form(text, w, d, b) ensures w == text[0] && d == text[2..end] && b == text[end..] {
      FormShape(text, w, d, b);
      DecimalsAreTheDigits(text, w, d, b, end);
    }
  }

  lemma RefusedDecimals(text: string, end: nat)
    requires |text| >= 2 && text[1] == '.' && 2 <= end <= |text| && (forall i | 2 <= i < end :: IsDigit(text[i]))
    requires (end == 2 && (end == |text| || !IsDigit(text[2]))) || (text[0] == '1' && end > 2 && text[end - 1] != '0')
    ensures forall w, d, b :: !Form(text, w, d, b)
  {
    forall w, d, b | Form(text, w, d, b) ensures false {
      FormShape(text, w, d, b);
      DecimalsAreTheDigits(text, w, d, b, end);
    }
  }

  /** Whether a field of known parts is in the grammar depends on its blanks alone. */
  lemma BlanksDecide(text: string, digits: string, end: nat)
    requires Parts(text, digits, end) && AllDigits(digits)
    requires text[0] == '0' || (text[0] == '1' && AllZeros(digits))
    requires text == [text[0]] + (if digits == "" then "" else "." + digits) + text[end..]
    ensures (forall i | end <= i < |text| :: IsBlank(text[i])) <==> Form(text, text[0], digits, text[end..])
  {
    forall i | end <= i < |text| ensures text[end..][i - end] == text[i] {
    }
  }

  /** Accepts exactly the grammar, and reads a field of the grammar as its meaning. */
  method Parse(text: string) returns (probability: Option<real>)
    ensures probability.Some? <==> exists whole, decimals, blanks :: Form(text, whole, decimals, blanks)
    ensures forall whole, decimals, blanks | Form(text, whole, decimals, blanks) ::
              probability == Some(Meaning(whole, decimals))
  {
    if text == "" || (text[0] != '0' && text[0] != '1') {
      return None;
    }
    var one := text[0] == '1';
    var end, decimals, scale := 1, 0, 1;
    ghost var digits := "";
    if |text| > 1 && text[1] == '.' {
      var ok;
      end, decimals, scale, ok := ScanDecimals(text, one);
      if !ok {
        RefusedDecimals(text, end);
        return None;
      }
      digits := text[2..end];
      AllDecimals(text, end);
      assert one ==> AllZeros(digits);
      assert text == [text[0]] + ("." + digits) + text[end..];
    } else {
      NoDecimals(text);
    }
    BlanksDecide(text, digits, end);
    var stop := SkipBlanks(text, end);
    if stop != |text| {
      return None;
    }
    return Some(if one then 1.0 else Ratio(decimals, scale));
  }
}
