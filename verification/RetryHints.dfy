/** The waits a refused caller is told about: rounded-up header values and the reset text. */
module RetryHints {
  import opened Common
  import opened Gcra
  import opened Text

  const MILLISECOND: nat := 1_000_000

  /** Whole units covering the wait, never zero, saturating at 64 bits. */
  function Ceiling(wait: nat, unit: nat): nat
    requires unit > 0
  {
    var rounded := (wait + unit - 1) / unit;
    var atLeastOne := if rounded < 1 then 1 else rounded;
    if atLeastOne <= U64_MAX then atLeastOne else U64_MAX
  }

  function RetryAfterSeconds(wait: nat): nat {
    Ceiling(wait, SECOND)
  }

  function RetryAfterMillis(wait: nat): nat {
    Ceiling(wait, MILLISECOND)
  }

  /** The hint covers the wait unless it saturated, and one unit less never does. */
  lemma CeilingIsExact(wait: nat, unit: nat)
    requires unit > 0
    ensures 1 <= Ceiling(wait, unit) <= 0xffff_ffff_ffff_ffff
    ensures wait <= Ceiling(wait, unit) * unit <==> wait <= 0xffff_ffff_ffff_ffff * unit
    ensures Ceiling(wait, unit) > 1 ==> (Ceiling(wait, unit) - 1) * unit < wait
  {}

  lemma HintInUnits(limits: Limits, bucket: Bucket, now: nat, unit: nat)
    requires limits.Valid() && !Admits(limits, bucket, now) && unit > 0
    ensures var wait := Charge(limits, bucket, now).1.retryAfter;
            var hint := Ceiling(wait, unit);
            && hint >= 1
            && (Admits(limits, bucket, now + hint * unit) <==> wait <= U64_MAX * unit)
            && (hint > 1 ==> !Admits(limits, bucket, now + (hint - 1) * unit))
  {
    var wait := Charge(limits, bucket, now).1.retryAfter;
    var hint := Ceiling(wait, unit);
    CeilingIsExact(wait, unit);
    RetryIsExact(limits, bucket, now, hint * unit);
    MulMonotone(0, hint - 1, unit);
    RetryIsExact(limits, bucket, now, (hint - 1) * unit);
  }

  /** Waiting out either header is enough to be admitted unless it saturated, and waiting one unit less is not. */
  lemma HintIsEnoughAndTight(limits: Limits, bucket: Bucket, now: nat)
    requires limits.Valid() && !Admits(limits, bucket, now)
    ensures var wait := Charge(limits, bucket, now).1.retryAfter;
            var (seconds, millis) := (RetryAfterSeconds(wait), RetryAfterMillis(wait));
            && (wait <= U64_MAX * 1_000_000_000 <==> Admits(limits, bucket, now + seconds * 1_000_000_000))
            && (wait <= U64_MAX * 1_000_000 <==> Admits(limits, bucket, now + millis * 1_000_000))
            && (seconds > 1 ==> !Admits(limits, bucket, now + (seconds - 1) * 1_000_000_000))
            && (millis > 1 ==> !Admits(limits, bucket, now + (millis - 1) * 1_000_000))
  {
    hide Admits, Charge, Ceiling;
    HintInUnits(limits, bucket, now, SECOND);
    HintInUnits(limits, bucket, now, MILLISECOND);
  }

  // ----- the reset text

  /** Three digits with leading zeros. */
  function Padded(n: nat): (text: string)
    requires n < 1000
    ensures |text| == 3 && AllDigits(text)
  {
    [Digit(n / 100), Digit(n / 10 % 10), Digit(n % 10)]
  }

  predicate IsZero(c: char) {
    c == '0'
  }

  predicate IsPoint(c: char) {
    c == '.'
  }

  /** Seconds with up to three decimals and no trailing zeros or point. */
  function Seconds(millis: nat): string {
    TrimBack(TrimBack(Decimal(millis / 1000) + "." + Padded(millis % 1000), IsZero), IsPoint)
  }

  /** The text of `millis` milliseconds: 250ms, 1.5s, 2m3.25s. */
  function Render(millis: nat): string {
    if millis < 1000 then Decimal(millis) + "ms"
    else if millis / 60_000 == 0 then Seconds(millis % 60_000) + "s"
    else Decimal(millis / 60_000) + "m" + Seconds(millis % 60_000) + "s"
  }

  function ResetDuration(wait: nat): string {
    Render(RetryAfterMillis(wait))
  }

  // ----- reading the text back

  function ReadNumber(text: string): Option<nat> {
    if text != [] && AllDigits(text) then Some(Number(text)) else None
  }

  /** Thousandths denoted by one to three decimals. */
  function ReadDecimals(text: string): Option<nat> {
    if 1 <= |text| <= 3 && AllDigits(text) then
      Some(Number(text) * (if |text| == 1 then 100 else if |text| == 2 then 10 else 1))
    else None
  }

  function ReadSeconds(text: string): Option<nat> {
    match SplitOnce(text, '.')
    case None => (match ReadNumber(text) case Some(n) => Some(1000 * n) case None => None)
    case Some((whole, decimals)) =>
      match (ReadNumber(whole), ReadDecimals(decimals))
      case (Some(n), Some(d)) => Some(1000 * n + d)
      case _ => None
  }

  /** The milliseconds that a reset text stands for. */
  function Decode(text: string): Option<nat> {
    var n := |text|;
    if n >= 2 && text[n - 2..] == "ms" then ReadNumber(text[..n - 2])
    else if n >= 1 && text[n - 1] == 's' then
      match SplitOnce(text[..n - 1], 'm')
      case None => ReadSeconds(text[..n - 1])
      case Some((minutes, seconds)) =>
        match (ReadNumber(minutes), ReadSeconds(seconds))
        case (Some(m), Some(millis)) => Some(60_000 * m + millis)
        case _ => None
    else None
  }

  lemma TrimStops(text: string, drop: char -> bool, c: char)
    requires text != [] && !drop(text[|text| - 1]) && drop(c)
    ensures TrimBack(text, drop) == text
    ensures TrimBack(text + [c], drop) == text
    ensures TrimBack(text + [c, c], drop) == text
    ensures TrimBack(text + [c, c, c], drop) == text
  {
    assert (text + [c])[..|text|] == text;
    assert (text + [c, c])[..|text| + 1] == text + [c];
    assert (text + [c, c, c])[..|text| + 2] == text + [c, c];
  }

  /** The decimals that survive trimming, as a number of thousandths. */
  function Decimals(thousandths: nat): (text: string)
    requires 0 < thousandths < 1000
    ensures 1 <= |text| <= 3 && AllDigits(text)
  {
    if thousandths % 10 != 0 then Padded(thousandths)
    else if thousandths / 10 % 10 != 0 then Padded(thousandths)[..2]
    else Padded(thousandths)[..1]
  }

  lemma DecimalsRoundTrip(thousandths: nat)
    requires 0 < thousandths < 1000
    ensures ReadDecimals(Decimals(thousandths)) == Some(thousandths)
  {
    var text := Padded(thousandths);
    assert text[..2][..1] == text[..1];
    assert Number(text[..1]) == thousandths / 100;
    assert Number(text[..2]) == thousandths / 10;
    assert Number(text) == thousandths;
  }

  /** Trimming removes exactly the trailing zeros of the decimals, and the point when none is left. */
  lemma SecondsShape(millis: nat)
    ensures Seconds(millis)
            == if millis % 1000 == 0 then Decimal(millis / 1000)
               else Decimal(millis / 1000) + "." + Decimals(millis % 1000)
  {
    var whole, rest := Decimal(millis / 1000), millis % 1000;
    hide Decimal, Padded, Decimals, TrimBack;
    assert Seconds(millis) == TrimBack(TrimBack(whole + "." + Padded(rest), IsZero), IsPoint);
    if rest == 0 {
      assert Padded(0) == ['0', '0', '0'] by {
        PaddedZero();
      }
      TrimStops(whole + ".", IsZero, '0');
      assert whole + "." == whole + ['.'];
      TrimStops(whole, IsPoint, '.');
      assert TrimBack(whole + "." + Padded(rest), IsZero) == whole + ['.'];
    } else {
      var zeros := PaddedParts(rest);
      var kept := whole + "." + Decimals(rest);
      assert whole + "." + Padded(rest) == kept + zeros;
      assert kept + "" == kept;
      TrimStops(kept, IsZero, '0');
      assert TrimBack(whole + "." + Padded(rest), IsZero) == kept;
      TrimStops(kept, IsPoint, '.');
    }
  }

  lemma PaddedZero()
    ensures Padded(0) == ['0', '0', '0']
  {}

  /** Three digits are the decimals kept and the zeros that trimming removes. */
  lemma PaddedParts(thousandths: nat) returns (zeros: string)
    requires 0 < thousandths < 1000
    ensures Padded(thousandths) == Decimals(thousandths) + zeros
    ensures zeros == [] || zeros == ['0'] || zeros == ['0', '0']
    ensures Decimals(thousandths)[|Decimals(thousandths)| - 1] !in {'0', '.'}
  {
    zeros := if thousandths % 10 != 0 then [] else if thousandths / 10 % 10 != 0 then ['0'] else ['0', '0'];
  }

  lemma ReadDecimal(n: nat)
    ensures ReadNumber(Decimal(n)) == Some(n)
    ensures Decimal(n) != [] && IsDigit(Decimal(n)[|Decimal(n)| - 1]) && 'm' !in Decimal(n) && '.' !in Decimal(n)
  {
    DecimalRoundTrip(n);
  }

  lemma ReadWhole(whole: string, n: nat)
    requires ReadNumber(whole) == Some(n) && '.' !in whole
    ensures ReadSeconds(whole) == Some(1000 * n)
  {
    NothingToSplit(whole, '.');
  }

  lemma ReadFraction(whole: string, n: nat, decimals: string, d: nat)
    requires ReadNumber(whole) == Some(n) && '.' !in whole && ReadDecimals(decimals) == Some(d)
    ensures ReadSeconds(whole + "." + decimals) == Some(1000 * n + d)
  {
    SplitAtFirst(whole, '.', decimals);
  }

  lemma SecondsRoundTrip(millis: nat)
    ensures ReadSeconds(Seconds(millis)) == Some(millis)
    ensures 'm' !in Seconds(millis) && Seconds(millis) != []
    ensures IsDigit(Seconds(millis)[|Seconds(millis)| - 1])
  {
    hide Seconds, Decimal, ReadNumber, ReadDecimals, ReadSeconds, Padded;
    var n, d := millis / 1000, millis % 1000;
    SecondsShape(millis);
    ReadDecimal(n);
    if d == 0 {
      ReadWhole(Decimal(n), n);
    } else {
      DecimalsRoundTrip(d);
      ReadFraction(Decimal(n), n, Decimals(d), d);
    }
  }

  lemma DecodeMillis(number: string, n: nat)
    requires ReadNumber(number) == Some(n)
    ensures Decode(number + "ms") == Some(n)
  {}

  /** A text ending in a digit and an 's' is not a millisecond text. */
  lemma DecodeSeconds(text: string, seconds: string)
    requires seconds != [] && IsDigit(seconds[|seconds| - 1]) && text == seconds + "s"
    ensures Decode(text) == match SplitOnce(seconds, 'm')
                            case None => ReadSeconds(seconds)
                            case Some((minutes, rest)) =>
                              match (ReadNumber(minutes), ReadSeconds(rest))
                              case (Some(m), Some(millis)) => Some(60_000 * m + millis)
                              case _ => None
  {
    hide ReadNumber, ReadSeconds, SplitOnce;
    var n := |text|;
    assert text[n - 2..][0] == seconds[|seconds| - 1];
    assert text[..n - 1] == seconds;
  }

  lemma RenderRoundTrip(millis: nat)
    ensures Decode(Render(millis)) == Some(millis)
  {
    hide Decode, Seconds, ReadSeconds, ReadNumber, Decimal;
    if millis < 1000 {
      ReadDecimal(millis);
      DecodeMillis(Decimal(millis), millis);
    } else {
      var minutes, rest := millis / 60_000, millis % 60_000;
      SecondsRoundTrip(rest);
      var seconds := Seconds(rest);
      if minutes == 0 {
        NothingToSplit(seconds, 'm');
        DecodeSeconds(seconds + "s", seconds);
      } else {
        ReadDecimal(minutes);
        SplitAtFirst(Decimal(minutes), 'm', seconds);
        DecodeSeconds(Render(millis), Decimal(minutes) + "m" + seconds);
      }
    }
  }

  /** The reset text decodes to exactly the rounded-up milliseconds of the wait. */
  lemma ResetRoundTrip(wait: nat)
    ensures Decode(ResetDuration(wait)) == Some(RetryAfterMillis(wait))
  {
    RenderRoundTrip(RetryAfterMillis(wait));
  }

  /** How many units of the last place three decimals hold. */
  function Scale(decimals: string): nat
    requires |decimals| <= 3
  {
    match |decimals| case 0 => 1000 case 1 => 100 case 2 => 10 case _ => 1
  }

  /** Seconds with their decimals: no point when there are none. */
  function WithDecimals(seconds: nat, decimals: string): string {
    Decimal(seconds) + if decimals == [] then "" else "." + decimals
  }

  /**
   The form of the text. Below a second it is whole milliseconds; from then on minutes unless there are none,
   seconds below sixty, and as few decimals as denote the rest, with no point when there are none.
   */
  lemma ResetForm(minutes: nat, seconds: nat, thousandths: nat) returns (decimals: string)
    requires seconds < 60 && thousandths < 1000
    ensures |decimals| <= 3 && AllDigits(decimals) && Number(decimals) * Scale(decimals) == thousandths
    ensures decimals != [] ==> decimals[|decimals| - 1] != '0'
    ensures Render(60_000 * minutes + 1000 * seconds + thousandths)
            == if minutes > 0 then Decimal(minutes) + "m" + WithDecimals(seconds, decimals) + "s"
               else if seconds > 0 then WithDecimals(seconds, decimals) + "s"
               else Decimal(thousandths) + "ms"
  {
    hide *;
    decimals := SecondsParts(seconds, thousandths);
    RenderParts(minutes, 1000 * seconds + thousandths);
  }

  lemma RenderParts(minutes: nat, rest: nat)
    requires rest < 60_000
    ensures Render(60_000 * minutes + rest)
            == if minutes > 0 then Decimal(minutes) + "m" + Seconds(rest) + "s"
               else if rest >= 1000 then Seconds(rest) + "s"
               else Decimal(rest) + "ms"
  {
    hide Seconds, Decimal;
    var millis := 60_000 * minutes + rest;
    assert millis / 60_000 == minutes && millis % 60_000 == rest;
  }

  lemma SecondsParts(seconds: nat, thousandths: nat) returns (decimals: string)
    requires thousandths < 1000
    ensures |decimals| <= 3 && AllDigits(decimals) && Number(decimals) * Scale(decimals) == thousandths
    ensures decimals != [] ==> decimals[|decimals| - 1] != '0'
    ensures Seconds(1000 * seconds + thousandths) == WithDecimals(seconds, decimals)
  {
    var millis := 1000 * seconds + thousandths;
    assert millis / 1000 == seconds && millis % 1000 == thousandths;
    SecondsShape(millis);
    hide Seconds, Decimal, Decimals, Padded;
    assert Decimal(seconds) + "" == Decimal(seconds);
    decimals := "";
    if thousandths > 0 {
      decimals := Decimals(thousandths);
      DecimalsAreFewest(thousandths);
      assert Decimal(seconds) + "." + decimals == Decimal(seconds) + ("." + decimals);
    }
  }

  lemma DecimalsAreFewest(thousandths: nat)
    requires 0 < thousandths < 1000
    ensures var decimals := Decimals(thousandths);
            && decimals[|decimals| - 1] != '0'
            && Number(decimals) * Scale(decimals) == thousandths
  {
    DecimalsRoundTrip(thousandths);
  }

  /** Two waits print alike exactly when they round up to the same millisecond. */
  lemma ResetIsInjective(wait: nat, other: nat)
    ensures ResetDuration(wait) == ResetDuration(other) <==> RetryAfterMillis(wait) == RetryAfterMillis(other)
  {
    ResetRoundTrip(wait);
    ResetRoundTrip(other);
  }
}
