/** Text operations of the standard libraries that the modelled code calls. */
module Text {
  import opened Common

  function Digit(n: nat): char
    requires n < 10
  {
    '0' + n as char
  }

  predicate IsDigit(c: char) {
    '0' <= c <= '9'
  }

  predicate AllDigits(text: string) {
    forall k | 0 <= k < |text| :: IsDigit(text[k])
  }

  function Decimal(n: nat): (text: string)
    ensures text != [] && AllDigits(text)
  {
    if n < 10 then [Digit(n)] else Decimal(n / 10) + [Digit(n % 10)]
  }

  /** The number that a text of decimal digits denotes. */
  function Number(text: string): nat
    requires AllDigits(text)
  {
    if text == [] then 0
    else 10 * Number(text[..|text| - 1]) + (text[|text| - 1] as nat - '0' as nat)
  }

  lemma {:induction false} DecimalRoundTrip(n: nat)
    ensures Number(Decimal(n)) == n
  {
    if n >= 10 {
      DecimalRoundTrip(n / 10);
      assert Decimal(n)[..|Decimal(n)| - 1] == Decimal(n / 10);
    }
  }

  /** The digits are '0' to '9', and a number is written without leading zeros. */
  lemma {:induction false} DecimalIsCanonical(n: nat)
    ensures forall k | 0 <= k < |Decimal(n)| :: '0' <= Decimal(n)[k] <= '9'
    ensures n < 10 ==> |Decimal(n)| == 1 && Decimal(n)[0] as nat == '0' as nat + n
    ensures n >= 10 ==> Decimal(n)[0] != '0'
  {
    if n >= 10 {
      DecimalIsCanonical(n / 10);
      assert n / 10 < 10 ==> n / 10 > 0;
    }
  }

  /** The text before and after the first `c`. */
  function SplitOnce(text: string, c: char): Option<(string, string)> {
    if text == [] then None
    else if text[0] == c then Some(([], text[1..]))
    else
      match SplitOnce(text[1..], c)
      case Some((before, after)) => Some(([text[0]] + before, after))
      case None => None
  }

  lemma {:induction false} SplitAtFirst(before: string, c: char, after: string)
    requires c !in before
    ensures SplitOnce(before + [c] + after, c) == Some((before, after))
  {
    var text := before + [c] + after;
    if before == [] {
      assert text[1..] == after;
    } else {
      assert text[1..] == before[1..] + [c] + after;
      SplitAtFirst(before[1..], c, after);
      assert [text[0]] + before[1..] == before;
    }
  }

  lemma {:induction false} NothingToSplit(text: string, c: char)
    requires c !in text
    ensures SplitOnce(text, c) == None
  {
    if text != [] {
      NothingToSplit(text[1..], c);
    }
  }

  /** Every piece of the text between separators, empty pieces included. */
  function Split(text: string, separator: char): (pieces: seq<string>)
    ensures pieces != []
    decreases |text|
  {
    match SplitOnce(text, separator)
    case None => [text]
    case Some((before, after)) => SplitShrinks(text, separator); [before] + Split(after, separator)
  }

  lemma {:induction false} SplitShrinks(text: string, c: char)
    ensures SplitOnce(text, c).Some? ==>
              var (before, after) := SplitOnce(text, c).value;
              text == before + [c] + after && c !in before
  {
    if text != [] && text[0] != c {
      SplitShrinks(text[1..], c);
      if SplitOnce(text[1..], c).Some? {
        var (before, after) := SplitOnce(text[1..], c).value;
        assert text == [text[0]] + text[1..];
      }
    }
  }

  /** Joining two texts with a separator concatenates their pieces. */
  lemma {:induction false} SplitJoined(left: string, separator: char, right: string)
    ensures Split(left + [separator] + right, separator) == Split(left, separator) + Split(right, separator)
    decreases |left|
  {
    match SplitOnce(left, separator)
    case None =>
      NotSplit(left, separator);
      SplitAtFirst(left, separator, right);
    case Some((before, after)) =>
      SplitShrinks(left, separator);
      assert left + [separator] + right == before + [separator] + (after + [separator] + right);
      SplitAtFirst(before, separator, after + [separator] + right);
      SplitJoined(after, separator, right);
  }

  lemma {:induction false} NotSplit(text: string, c: char)
    requires SplitOnce(text, c).None?
    ensures c !in text
  {
    if text != [] {
      NotSplit(text[1..], c);
    }
  }

  /** White space that a header value converted to text can hold. */
  predicate IsBlank(c: char) {
    c == ' ' || c == '\t'
  }

  function TrimStart(text: string, drop: char -> bool): string {
    if text != [] && drop(text[0]) then TrimStart(text[1..], drop) else text
  }

  function TrimBack(text: string, drop: char -> bool): string {
    if text != [] && drop(text[|text| - 1]) then TrimBack(text[..|text| - 1], drop) else text
  }

  function Trim(text: string, drop: char -> bool): string {
    TrimBack(TrimStart(text, drop), drop)
  }

  function Lower(c: char): char {
    if 'A' <= c <= 'Z' then c - 'A' + 'a' else c
  }

  predicate EqualsIgnoringCase(text: string, other: string) {
    |text| == |other| && forall k | 0 <= k < |text| :: Lower(text[k]) == Lower(other[k])
  }

  /** A 64-bit number: an optional plus sign and at least one digit, within range. */
  function ParseU64(text: string): (parsed: Option<nat>)
    ensures parsed.Some? ==> parsed.value <= U64_MAX
  {
    var digits := if text != [] && text[0] == '+' then text[1..] else text;
    if digits != [] && AllDigits(digits) && Number(digits) <= U64_MAX then Some(Number(digits)) else None
  }
}
