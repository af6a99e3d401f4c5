/**
 Hiding the user information of URLs inside diagnostics. Text is a sequence of Unicode characters;
 the source slices it by byte offsets, and the one offset that can fall inside a character is
 the one after the character before a URL's scheme, where the source then panics.
 */
module RedactUrls {
  import opened Common

  /** What user information is replaced with. */
  function Placeholder(): string {
    "[REDACTED]"
  }

  /** The placeholder and the sign before the host. */
  function Mask(): string {
    Placeholder() + "@"
  }

  /** The characters of Unicode White_Space. */
  predicate IsWhitespace(c: char) {
    var n := c as int;
    || 0x09 <= n <= 0x0d || n == 0x20 || n == 0x85 || n == 0xa0 || n == 0x1680
    || 0x2000 <= n <= 0x200a || n == 0x2028 || n == 0x2029 || n == 0x202f || n == 0x205f || n == 0x3000
  }

  /** A character that ends a URL. */
  predicate IsDelimiter(c: char) {
    IsWhitespace(c) || c in {'`', '"', '\'', '<', '>'}
  }

  predicate IsSchemeChar(c: char) {
    'a' <= c <= 'z' || 'A' <= c <= 'Z' || '0' <= c <= '9' || c in {'+', '-', '.'}
  }

  predicate IsNotSchemeChar(c: char) {
    !IsSchemeChar(c)
  }

  /** A character that ends the authority of a URL. */
  predicate EndsAuthority(c: char) {
    c in {'/', '?', '#'}
  }

  predicate IsAt(c: char) {
    c == '@'
  }

  /** One byte in UTF-8. */
  predicate IsAscii(c: char) {
    c as int < 128
  }

  lemma MaskIsPlain()
    ensures |Mask()| == |Placeholder()| + 1 && Mask()[|Placeholder()|] == '@' && Mask()[..|Placeholder()|] == Placeholder()
    ensures forall j | 0 <= j < |Mask()| :: !IsDelimiter(Mask()[j]) && !EndsAuthority(Mask()[j])
  {}

  // ----- searching

  predicate SeparatorAt(text: string, i: nat) {
    i + 3 <= |text| && text[i] == ':' && text[i + 1] == '/' && text[i + 2] == '/'
  }

  /** The first "://". */
  function FindSeparator(text: string): (at: Option<nat>)
    ensures at.Some? ==> at.value + 3 <= |text|
  {
    if SeparatorAt(text, 0) then Some(0)
    else if text == [] then None
    else
      match FindSeparator(text[1..])
      case None => None
      case Some(i) => Some(i + 1)
  }

  /** The first character satisfying `p`, or the length. */
  function FirstWhere(text: string, p: char -> bool): (at: nat)
    ensures at <= |text|
  {
    if text == [] || p(text[0]) then 0 else 1 + FirstWhere(text[1..], p)
  }

  /** One past the last character satisfying `p`, or zero. */
  function AfterLastWhere(text: string, p: char -> bool): (at: nat)
    ensures at <= |text|
  {
    if text == [] || p(text[|text| - 1]) then |text| else AfterLastWhere(text[..|text| - 1], p)
  }

  lemma {:induction false} SeparatorMeans(text: string)
    ensures match FindSeparator(text)
            case None => forall j :: 0 <= j ==> !SeparatorAt(text, j)
            case Some(i) => SeparatorAt(text, i) && forall j | 0 <= j < i :: !SeparatorAt(text, j)
  {
    if text != [] {
      SeparatorMeans(text[1..]);
      assert forall j | 0 < j :: SeparatorAt(text, j) <==> SeparatorAt(text[1..], j - 1);
    }
  }

  lemma {:induction false} FirstWhereMeans(text: string, p: char -> bool)
    ensures var at := FirstWhere(text, p);
            (forall j | 0 <= j < at :: !p(text[j])) && (at < |text| ==> p(text[at]))
  {
    if text != [] {
      FirstWhereMeans(text[1..], p);
      assert forall j | 0 < j < |text| :: text[j] == text[1..][j - 1];
    }
  }

  lemma {:induction false} AfterLastWhereMeans(text: string, p: char -> bool)
    ensures var at := AfterLastWhere(text, p);
            (forall j | at <= j < |text| :: !p(text[j])) && (at > 0 ==> p(text[at - 1]))
  {
    if text != [] {
      AfterLastWhereMeans(text[..|text| - 1], p);
    }
  }

  /** Where the scheme that ends the text begins. */
  function SchemeStart(text: string): nat {
    AfterLastWhere(text, IsNotSchemeChar)
  }

  function FirstDelimiter(text: string): nat {
    FirstWhere(text, IsDelimiter)
  }

  function AuthorityEnd(rest: string): (end: nat)
    ensures end <= |rest|
  {
    FirstWhere(rest, EndsAuthority)
  }

  // ----- the code

  function RedactUrl(url: string): string {
    match FindSeparator(url)
    case None => url
    case Some(i) =>
      var scheme, rest := url[..i], url[i + 3..];
      var end := AuthorityEnd(rest);
      var authority, suffix := rest[..end], rest[end..];
      var host := AfterLastWhere(authority, IsAt);
      if host == 0 then url
      else scheme + "://" + Mask() + authority[host..] + suffix
  }

  /** Where the first URL of the text begins. */
  function UrlStart(text: string): (start: nat)
    requires FindSeparator(text).Some?
    ensures start <= FindSeparator(text).value
  {
    SchemeStart(text[..FindSeparator(text).value])
  }

  /** Where it ends. */
  function UrlEnd(text: string): (end: nat)
    requires FindSeparator(text).Some?
    ensures FindSeparator(text).value + 3 <= end <= |text|
  {
    var authorityStart := FindSeparator(text).value + 3;
    authorityStart + FirstDelimiter(text[authorityStart..])
  }

  /** Nothing when a slice would fall inside a character. */
  method Redact(text: string) returns (output: Option<string>)
    ensures output == if Panics(None, text) then None else Some(Redacted(text))
  {
    hide FindSeparator, Redacted, Panics, RedactUrl;
    var done, remaining := "", text;
    while FindSeparator(remaining).Some?
      invariant done + Redacted(remaining) == Redacted(text)
      invariant Panics(None, remaining) == Panics(None, text)
      decreases |remaining|
    {
      var start, end := UrlStart(remaining), UrlEnd(remaining);
      ScanStep(None, remaining);
      if start > 0 && !IsAscii(remaining[start - 1]) {
        return None;
      }
      var piece := remaining[..start] + RedactUrl(remaining[start..end]);
      assert done + (piece + Redacted(remaining[end..])) == done + piece + Redacted(remaining[end..]);
      done := done + piece;
      remaining := remaining[end..];
    }
    NothingToRedact(None, remaining);
    return Some(done + remaining);
  }

  // ----- the specification, one delimiter-free segment at a time

  /** Replace the user information at the front of what follows "://". */
  function RedactRest(rest: string): string {
    var end := AuthorityEnd(rest);
    var host := AfterLastWhere(rest[..end], IsAt);
    if host == 0 then rest else Mask() + rest[host..]
  }

  function RedactSegment(segment: string): string {
    match FindSeparator(segment)
    case None => segment
    case Some(i) => segment[..i + 3] + RedactRest(segment[i + 3..])
  }

  function Redacted(text: string): string
    decreases |text|
  {
    var n := FirstDelimiter(text);
    RedactSegment(text[..n]) + if n == |text| then "" else [text[n]] + Redacted(text[n + 1..])
  }

  /** The URL of this segment, if any, is directly preceded by a character longer than one byte. */
  predicate BadSegment(before: Option<char>, segment: string) {
    match FindSeparator(segment)
    case None => false
    case Some(i) =>
      var start := SchemeStart(segment[..i]);
      if start > 0 then !IsAscii(segment[start - 1]) else before.Some? && !IsAscii(before.value)
  }

  /** `before` is the character in front of the text. */
  predicate Panics(before: Option<char>, text: string)
    decreases |text|
  {
    var n := FirstDelimiter(text);
    BadSegment(before, text[..n]) || (n < |text| && Panics(Some(text[n]), text[n + 1..]))
  }

  // ----- the loop follows the segments

  lemma FirstSeparator(text: string, i: nat)
    requires SeparatorAt(text, i) && forall j | 0 <= j < i :: !SeparatorAt(text, j)
    ensures FindSeparator(text) == Some(i)
  {
    SeparatorMeans(text);
  }

  lemma NoSeparator(text: string)
    requires forall j | 0 <= j < |text| :: !SeparatorAt(text, j)
    ensures FindSeparator(text).None?
  {
    SeparatorMeans(text);
  }

  lemma FirstWhereIs(text: string, p: char -> bool, at: nat)
    requires at <= |text| && (forall j | 0 <= j < at :: !p(text[j])) && (at < |text| ==> p(text[at]))
    ensures FirstWhere(text, p) == at
  {
    FirstWhereMeans(text, p);
  }

  lemma AfterLastWhereIs(text: string, p: char -> bool, at: nat)
    requires at <= |text| && (forall j | at <= j < |text| :: !p(text[j])) && (at > 0 ==> p(text[at - 1]))
    ensures AfterLastWhere(text, p) == at
  {}

  /** No delimiter inside. */
  predicate Whole(segment: string) {
    FirstDelimiter(segment) == |segment|
  }

  /** A text is its first segment, then nothing or a delimiter and the rest. */
  lemma CutFirst(text: string) returns (segment: string, tail: string)
    ensures text == segment + tail && segment == text[..FirstDelimiter(text)] && Whole(segment)
    ensures tail != [] ==> IsDelimiter(tail[0]) && text == segment + ([tail[0]] + tail[1..])
  {
    hide FirstWhere, IsDelimiter;
    var n := FirstDelimiter(text);
    FirstWhereMeans(text, IsDelimiter);
    segment, tail := text[..n], text[n..];
    FirstWhereIs(segment, IsDelimiter, n);
    assert tail != [] ==> tail == [tail[0]] + tail[1..];
  }

  /** The specification on a single segment. */
  lemma SingleSegment(before: Option<char>, segment: string)
    requires Whole(segment)
    ensures Redacted(segment) == RedactSegment(segment)
    ensures Panics(before, segment) == BadSegment(before, segment)
    ensures Segments(segment) == [segment]
  {
    assert segment[..|segment|] == segment;
    assert RedactSegment(segment) + "" == RedactSegment(segment);
  }

  lemma DelimiterEndsSegment(segment: string, d: char, rest: string)
    requires Whole(segment) && IsDelimiter(d)
    ensures FirstDelimiter(segment + ([d] + rest)) == |segment|
  {
    hide FirstWhere, IsDelimiter;
    FirstWhereMeans(segment, IsDelimiter);
    FirstWhereIs(segment + ([d] + rest), IsDelimiter, |segment|);
  }

  /** The specification on a segment, a delimiter and more text. */
  lemma SegmentThenRest(before: Option<char>, segment: string, d: char, rest: string)
    requires Whole(segment) && IsDelimiter(d)
    ensures var text := segment + ([d] + rest);
            && FirstDelimiter(text) == |segment|
            && Redacted(text) == RedactSegment(segment) + ([d] + Redacted(rest))
            && Panics(before, text) == (BadSegment(before, segment) || Panics(Some(d), rest))
            && Segments(text) == [segment] + Segments(rest)
  {
    var text := segment + ([d] + rest);
    DelimiterEndsSegment(segment, d, rest);
    hide FirstDelimiter, IsDelimiter, RedactSegment, BadSegment, Whole;
    assert text[..|segment|] == segment && text[|segment|] == d && text[|segment| + 1..] == rest;
  }

  /** Text that begins with a delimiter has an empty first segment. */
  lemma StartsWithDelimiter(before: Option<char>, text: string)
    requires text != [] && IsDelimiter(text[0])
    ensures Redacted(text) == [text[0]] + Redacted(text[1..])
    ensures Panics(before, text) == Panics(Some(text[0]), text[1..])
  {}

  lemma NoSeparatorInside(text: string, low: nat, high: nat)
    requires low <= high <= |text|
    requires forall j | low <= j < high :: !SeparatorAt(text, j)
    ensures FindSeparator(text[low..high]).None?
  {
    var part := text[low..high];
    assert forall j | 0 <= j < |part| :: SeparatorAt(part, j) ==> SeparatorAt(text, j + low);
    NoSeparator(part);
  }

  lemma SeparatorInside(text: string, low: nat, high: nat, i: nat)
    requires FindSeparator(text) == Some(i) && low <= i && i + 3 <= high <= |text|
    ensures FindSeparator(text[low..high]) == Some(i - low)
  {
    hide FindSeparator;
    SeparatorMeans(text);
    var part := text[low..high];
    forall j | 0 <= j < i - low ensures !SeparatorAt(part, j) {
      assert !SeparatorAt(text, j + low);
    }
    FirstSeparator(part, i - low);
  }

  lemma NoSeparatorInParts(left: string, right: string)
    requires FindSeparator(left + right).None?
    ensures FindSeparator(left).None? && FindSeparator(right).None?
    ensures right != [] ==> FindSeparator(right[1..]).None?
  {
    var text := left + right;
    SeparatorMeans(text);
    NoSeparatorInside(text, 0, |left|);
    NoSeparatorInside(text, |left|, |text|);
    assert text[0..|left|] == left && text[|left|..|text|] == right;
    if right != [] {
      NoSeparatorInside(text, |left| + 1, |text|);
      assert text[|left| + 1..|text|] == right[1..];
    }
  }

  lemma NothingInSegment(before: Option<char>, segment: string)
    requires FindSeparator(segment).None?
    ensures RedactSegment(segment) == segment && !BadSegment(before, segment)
  {}

  lemma {:induction false} NothingToRedact(before: Option<char>, text: string)
    requires FindSeparator(text).None?
    ensures Redacted(text) == text && !Panics(before, text)
    decreases |text|
  {
    hide *;
    var segment, tail := CutFirst(text);
    NoSeparatorInParts(segment, tail);
    NothingInSegment(before, segment);
    if tail == [] {
      assert segment == text;
      SingleSegment(before, segment);
    } else {
      SegmentThenRest(before, segment, tail[0], tail[1..]);
      NothingToRedact(Some(tail[0]), tail[1..]);
    }
  }

  lemma RegroupUrl(front: string, mask: string, host: string, suffix: string)
    ensures front + mask + host + suffix == front + (mask + (host + suffix))
  {}

  /** `RedactUrl` keeps everything up to "://" and redacts what follows. */
  lemma RedactUrlShape(url: string, i: nat)
    requires FindSeparator(url) == Some(i)
    ensures RedactUrl(url) == url[..i + 3] + RedactRest(url[i + 3..])
  {
    SeparatorMeans(url);
    hide FindSeparator, FirstWhere, AfterLastWhere, Mask, EndsAuthority, IsAt;
    var rest := url[i + 3..];
    var end := AuthorityEnd(rest);
    var host := AfterLastWhere(rest[..end], IsAt);
    assert url == url[..i + 3] + rest;
    assert url[..i + 3] == url[..i] + "://";
    if host != 0 {
      assert rest[..end][host..] + rest[end..] == rest[host..];
      RegroupUrl(url[..i] + "://", Mask(), rest[..end][host..], rest[end..]);
    }
  }

  /** Cutting a URL out of its segment and redacting it redacts the segment. */
  lemma CandidateStep(segment: string, i: nat, start: nat)
    requires FindSeparator(segment) == Some(i) && start <= i
    ensures segment[..start] + RedactUrl(segment[start..]) == RedactSegment(segment)
  {
    hide FindSeparator, RedactUrl, RedactRest;
    SeparatorInside(segment, start, |segment|, i);
    var url := segment[start..|segment|];
    assert url == segment[start..];
    RedactUrlShape(url, i - start);
    var rest := segment[i + 3..];
    assert url[i - start + 3..] == rest;
    assert segment[..start] + url[..i - start + 3] == segment[..i + 3];
    assert segment[..start] + (url[..i - start + 3] + RedactRest(rest))
           == segment[..start] + url[..i - start + 3] + RedactRest(rest);
  }

  /** The character in front of the text's first URL is longer than one byte. */
  predicate BadStart(before: Option<char>, text: string)
    requires FindSeparator(text).Some?
  {
    var start := UrlStart(text);
    if start > 0 then !IsAscii(text[start - 1]) else before.Some? && !IsAscii(before.value)
  }

  /** One turn of the loop: what precedes the first URL, that URL, and the rest. */
  ghost predicate Scans(before: Option<char>, text: string)
    requires FindSeparator(text).Some?
  {
    var start, end := UrlStart(text), UrlEnd(text);
    && Redacted(text) == text[..start] + RedactUrl(text[start..end]) + Redacted(text[end..])
    && Panics(before, text) == (BadStart(before, text) || Panics(None, text[end..]))
  }

  lemma {:induction false} ScanStep(before: Option<char>, text: string)
    requires FindSeparator(text).Some?
    ensures Scans(before, text)
    decreases |text|
  {
    hide *;
    var segment, tail := CutFirst(text);
    if |segment| < FindSeparator(text).value {
      SegmentBeforeUrl(segment, tail);
      ScanStep(Some(tail[0]), tail[1..]);
      ScanPastDelimiter(before, segment, tail);
    } else {
      assert FirstDelimiter(text) == |segment| by {
        SegmentLength(segment, tail, text);
      }
      ScanHere(before, text);
    }
  }

  lemma SegmentLength(segment: string, tail: string, text: string)
    requires text == segment + tail && segment == text[..FirstDelimiter(text)]
    ensures FirstDelimiter(text) == |segment|
  {}

  lemma UrlOfFirstSegment(text: string)
    requires FindSeparator(text).Some? && FindSeparator(text).value <= FirstDelimiter(text)
    ensures UrlEnd(text) == FirstDelimiter(text)
  {
    hide FindSeparator, FirstWhere;
    var i, n := FindSeparator(text).value, FirstDelimiter(text);
    SeparatorMeans(text);
    FirstWhereMeans(text, IsDelimiter);
    assert n >= i + 3;
    var rest := text[i + 3..];
    assert forall j | 0 <= j < |rest| :: rest[j] == text[i + 3 + j];
    FirstWhereIs(rest, IsDelimiter, n - i - 3);
  }

  lemma ScansMeans(before: Option<char>, text: string)
    requires FindSeparator(text).Some?
    ensures var start, end := UrlStart(text), UrlEnd(text);
            Scans(before, text) <==>
              && Redacted(text) == text[..start] + RedactUrl(text[start..end]) + Redacted(text[end..])
              && Panics(before, text) == (BadStart(before, text) || Panics(None, text[end..]))
  {}

  lemma BadHere(before: Option<char>, text: string, n: nat, i: nat)
    requires FindSeparator(text) == Some(i) && i + 3 <= n <= |text|
    ensures FindSeparator(text[..n]) == Some(i)
    ensures BadSegment(before, text[..n]) == BadStart(before, text)
  {
    hide FindSeparator, AfterLastWhere;
    SeparatorInside(text, 0, n, i);
    assert text[0..n] == text[..n] && text[..n][..i] == text[..i];
  }

  lemma ScanHere(before: Option<char>, text: string)
    requires FindSeparator(text).Some? && FindSeparator(text).value <= FirstDelimiter(text)
    ensures Scans(before, text)
  {
    hide *;
    var i, n, start := FindSeparator(text).value, UrlEnd(text), UrlStart(text);
    UrlOfFirstSegment(text);
    BadHere(before, text, n, i);
    var segment, tail := CutFirst(text);
    assert segment == text[..n] && tail == text[n..];
    CandidateStep(segment, i, start);
    assert segment[start..] == text[start..n] && segment[..start] == text[..start];
    if tail == [] {
      assert segment == text;
      SingleSegment(before, segment);
      EmptyIsWhole();
      SingleSegment(None, "");
      assert RedactSegment(segment) + "" == RedactSegment(segment);
    } else {
      SegmentThenRest(before, segment, tail[0], tail[1..]);
      StartsWithDelimiter(None, tail);
    }
    ScansMeans(before, text);
  }

  lemma EmptyIsWhole()
    ensures Whole("") && RedactSegment("") == "" && !BadSegment(None, "")
  {}

  lemma UrlParts(text: string, i: nat)
    requires FindSeparator(text) == Some(i)
    ensures UrlStart(text) == SchemeStart(text[..i])
    ensures UrlEnd(text) == i + 3 + FirstDelimiter(text[i + 3..])
  {}

  lemma SeparatorBeyond(segment: string, tail: string, i: nat)
    requires FindSeparator(segment + tail) == Some(i) && |segment| < i
    ensures FindSeparator(segment).None? && tail != [] && |segment| + 1 <= i
    ensures FindSeparator(tail[1..]) == Some(i - |segment| - 1)
  {
    var text := segment + tail;
    SeparatorMeans(text);
    hide FindSeparator;
    NoSeparatorInside(text, 0, |segment|);
    assert text[0..|segment|] == segment;
    SeparatorInside(text, |segment| + 1, |text|, i);
    assert text[|segment| + 1..|text|] == tail[1..];
  }

  /** A URL beyond the first segment starts and ends where it does in the rest. */
  lemma SegmentBeforeUrl(segment: string, tail: string)
    requires FindSeparator(segment + tail).Some? && |segment| < FindSeparator(segment + tail).value
    requires tail != [] ==> IsDelimiter(tail[0])
    ensures FindSeparator(segment).None? && tail != []
    ensures FindSeparator(tail[1..]) == Some(FindSeparator(segment + tail).value - |segment| - 1)
    ensures UrlStart(segment + tail) == |segment| + 1 + UrlStart(tail[1..])
    ensures UrlEnd(segment + tail) == |segment| + 1 + UrlEnd(tail[1..])
  {
    hide *;
    var text := segment + tail;
    var i, n := FindSeparator(text).value, |segment|;
    SeparatorBeyond(segment, tail, i);
    var rest := tail[1..];
    DelimiterIsNotScheme(tail[0]);
    SchemeStartShifts(segment + [tail[0]], rest[..i - n - 1]);
    UrlParts(text, i);
    UrlParts(rest, i - n - 1);
    SlicesBeyond(segment, tail, i);
  }

  lemma SlicesBeyond(segment: string, tail: string, i: nat)
    requires |segment| < i && i + 3 <= |segment + tail|
    ensures (segment + tail)[i + 3..] == tail[1..][i - |segment| - 1 + 3..]
    ensures (segment + tail)[..i] == (segment + [tail[0]]) + tail[1..][..i - |segment| - 1]
  {}

  lemma DelimiterIsNotScheme(c: char)
    requires IsDelimiter(c)
    ensures IsNotSchemeChar(c)
  {}

  lemma SchemeStartShifts(left: string, right: string)
    requires left != [] && IsNotSchemeChar(left[|left| - 1])
    ensures SchemeStart(left + right) == |left| + SchemeStart(right)
  {
    hide AfterLastWhere, IsNotSchemeChar;
    var inner := SchemeStart(right);
    AfterLastWhereMeans(right, IsNotSchemeChar);
    assert forall j | 0 <= j < |right| :: (left + right)[|left| + j] == right[j];
    AfterLastWhereIs(left + right, IsNotSchemeChar, |left| + inner);
  }

  lemma BadPastDelimiter(before: Option<char>, segment: string, tail: string)
    requires tail != [] && IsDelimiter(tail[0])
    requires FindSeparator(segment + tail).Some? && |segment| < FindSeparator(segment + tail).value
    ensures FindSeparator(tail[1..]).Some?
    ensures BadStart(before, segment + tail) == BadStart(Some(tail[0]), tail[1..])
  {
    SegmentBeforeUrl(segment, tail);
    hide UrlStart, UrlEnd, FindSeparator;
    var inner := UrlStart(tail[1..]);
    assert (segment + tail)[|segment| + inner] == if inner > 0 then tail[1..][inner - 1] else tail[0];
  }

  lemma ScanPastDelimiter(before: Option<char>, segment: string, tail: string)
    requires Whole(segment) && tail != [] && IsDelimiter(tail[0])
    requires FindSeparator(segment + tail).Some? && |segment| < FindSeparator(segment + tail).value
    requires FindSeparator(tail[1..]).Some? && Scans(Some(tail[0]), tail[1..])
    ensures Scans(before, segment + tail)
  {
    hide *;
    var d, rest, text := tail[0], tail[1..], segment + tail;
    var start, end, inner, innerEnd := UrlStart(text), UrlEnd(text), UrlStart(rest), UrlEnd(rest);
    SegmentBeforeUrl(segment, tail);
    NothingInSegment(before, segment);
    BadPastDelimiter(before, segment, tail);
    ScansMeans(Some(d), rest);
    assert text == segment + ([d] + rest);
    SegmentThenRest(before, segment, d, rest);
    assert rest[inner..innerEnd] == text[start..end] && rest[innerEnd..] == text[end..];
    assert segment + ([d] + rest[..inner]) == text[..start];
    Regroup(segment, d, rest[..inner], RedactUrl(text[start..end]), Redacted(text[end..]));
    ScansMeans(before, text);
  }

  lemma Regroup(a: string, x: char, b: string, c: string, d: string)
    ensures a + ([x] + (b + c + d)) == a + ([x] + b) + c + d
  {}

  // ----- what redaction promises

  function Segments(text: string): seq<string>
    decreases |text|
  {
    var n := FirstDelimiter(text);
    [text[..n]] + if n == |text| then [] else Segments(text[n + 1..])
  }

  /** What stands before the last '@' of the segment's authority, if it holds a URL with one. */
  function UserInfo(segment: string): Option<string> {
    match FindSeparator(segment)
    case None => None
    case Some(i) =>
      var rest := segment[i + 3..];
      var host := AfterLastWhere(rest[..AuthorityEnd(rest)], IsAt);
      if host == 0 then None else Some(rest[..host - 1])
  }

  predicate Clean(segment: string) {
    UserInfo(segment) in {None, Some(Placeholder())}
  }

  /** Everything from the last '@' on is kept, and the result redacts to itself. */
  lemma RedactRestStable(rest: string)
    ensures var host := AfterLastWhere(rest[..AuthorityEnd(rest)], IsAt);
            host > 0 ==>
              var hidden := Mask() + rest[host..];
              AfterLastWhere(hidden[..AuthorityEnd(hidden)], IsAt) == |Mask()|
  {
    MaskIsPlain();
    hide AfterLastWhere, FirstWhere, Mask, Placeholder;
    var end := AuthorityEnd(rest);
    FirstWhereMeans(rest, EndsAuthority);
    AfterLastWhereMeans(rest[..end], IsAt);
    var host := AfterLastWhere(rest[..end], IsAt);
    if host > 0 {
      var hidden := Mask() + rest[host..];
      var shift := |Mask()| - host;
      forall j | 0 <= j < end + shift ensures !EndsAuthority(hidden[j]) {
        if j >= |Mask()| {
          assert hidden[j] == rest[j - shift];
        }
      }
      FirstWhereIs(hidden, EndsAuthority, end + shift);
      forall j | |Mask()| <= j < end + shift ensures !IsAt(hidden[j]) {
        assert hidden[j] == rest[..end][j - shift];
      }
      AfterLastWhereIs(hidden[..end + shift], IsAt, |Mask()|);
    }
  }

  /** Redacting a segment keeps its scheme, host and suffix, hides the rest, and adds no delimiter. */
  lemma SegmentIsRedacted(segment: string, before: Option<char>)
    requires Whole(segment)
    ensures Clean(RedactSegment(segment))
    ensures RedactSegment(RedactSegment(segment)) == RedactSegment(segment)
    ensures Whole(RedactSegment(segment))
    ensures RedactSegment(segment) == segment <==> Clean(segment)
    ensures BadSegment(before, RedactSegment(segment)) == BadSegment(before, segment)
  {
    hide FindSeparator, FirstWhere, AfterLastWhere, IsDelimiter, Placeholder, Mask;
    if FindSeparator(segment).Some? {
      var i := FindSeparator(segment).value;
      var rest := segment[i + 3..];
      var host := AfterLastWhere(rest[..AuthorityEnd(rest)], IsAt);
      assert segment == segment[..i + 3] + rest;
      if host > 0 {
        HiddenSegment(segment, i, host);
        SameStart(segment, RedactSegment(segment), i, before);
        assert UserInfo(segment) == Some(rest[..host - 1]);
      }
    }
  }

  lemma SameStart(segment: string, hidden: string, i: nat, before: Option<char>)
    requires FindSeparator(segment) == FindSeparator(hidden) == Some(i) && hidden[..i] == segment[..i]
    ensures BadSegment(before, hidden) == BadSegment(before, segment)
  {}

  lemma HiddenShape(segment: string, i: nat, host: nat)
    requires FindSeparator(segment) == Some(i)
    requires var rest := segment[i + 3..]; 0 < host == AfterLastWhere(rest[..AuthorityEnd(rest)], IsAt)
    ensures var hidden := segment[..i + 3] + (Mask() + segment[i + 3..][host..]);
            && RedactSegment(segment) == hidden
            && FindSeparator(hidden) == Some(i)
            && hidden[..i] == segment[..i] && hidden[..i + 3] == segment[..i + 3]
            && hidden[i + 3..] == Mask() + segment[i + 3..][host..]
  {
    hide FindSeparator, FirstWhere, AfterLastWhere, EndsAuthority, IsAt, Mask;
    var hidden := segment[..i + 3] + (Mask() + segment[i + 3..][host..]);
    SeparatorMeans(segment);
    forall j | 0 <= j < i ensures !SeparatorAt(hidden, j) {
      assert !SeparatorAt(segment, j);
    }
    FirstSeparator(hidden, i);
  }

  lemma HiddenHasNoDelimiter(segment: string, cut: nat, kept: nat)
    requires cut <= kept <= |segment| && Whole(segment)
    ensures var hidden := segment[..cut] + (Mask() + segment[kept..]); Whole(hidden)
  {
    var hidden := segment[..cut] + (Mask() + segment[kept..]);
    MaskIsPlain();
    hide Mask, IsDelimiter, FirstWhere;
    FirstWhereMeans(segment, IsDelimiter);
    forall j | 0 <= j < |hidden| ensures !IsDelimiter(hidden[j]) {
      if j < cut {
        assert hidden[j] == segment[j];
      } else if j >= cut + |Mask()| {
        assert hidden[j] == segment[j - cut - |Mask()| + kept];
      }
    }
    FirstWhereIs(hidden, IsDelimiter, |hidden|);
  }

  lemma HiddenIsSame(rest: string, host: nat)
    requires 0 < host <= |rest| && rest[host - 1] == '@'
    ensures Mask() + rest[host..] == rest <==> rest[..host - 1] == Placeholder()
  {}

  lemma HiddenSegment(segment: string, i: nat, host: nat)
    requires Whole(segment) && FindSeparator(segment) == Some(i)
    requires var rest := segment[i + 3..]; 0 < host == AfterLastWhere(rest[..AuthorityEnd(rest)], IsAt)
    ensures var rest, hidden := segment[i + 3..], RedactSegment(segment);
            && FindSeparator(hidden) == Some(i)
            && UserInfo(hidden) == Some(Placeholder())
            && RedactSegment(hidden) == hidden
            && Whole(hidden)
            && (hidden == segment <==> rest[..host - 1] == Placeholder())
            && hidden[..i] == segment[..i]
  {
    hide *;
    var rest := segment[i + 3..];
    HostFollowsAt(rest, host);
    HiddenShape(segment, i, host);
    RedactRestStable(rest);
    HiddenHasNoDelimiter(segment, i + 3, i + 3 + host);
    HiddenIsSame(rest, host);
    var hidden, tail := RedactSegment(segment), Mask() + rest[host..];
    ReadHidden(hidden, i, tail);
    assert segment[i + 3 + host..] == rest[host..];
    assert segment == segment[..i + 3] + rest;
    assert hidden == segment ==> hidden[i + 3..] == segment[i + 3..];
  }

  lemma HostFollowsAt(rest: string, host: nat)
    requires 0 < host == AfterLastWhere(rest[..AuthorityEnd(rest)], IsAt)
    ensures host <= |rest| && rest[host - 1] == '@'
  {
    AfterLastWhereMeans(rest[..AuthorityEnd(rest)], IsAt);
    assert rest[..AuthorityEnd(rest)][host - 1] == rest[host - 1];
  }

  lemma MaskReadsAsPlaceholder(tail: string)
    requires Mask() <= tail
    ensures |Mask()| > 0 && tail[..|Mask()| - 1] == Placeholder() && Mask() + tail[|Mask()|..] == tail
  {
    MaskIsPlain();
    hide Mask, Placeholder;
    assert tail[..|Placeholder()|] == Mask()[..|Placeholder()|];
  }

  lemma ReadHidden(hidden: string, i: nat, tail: string)
    requires FindSeparator(hidden) == Some(i) && hidden[i + 3..] == tail
    requires Mask() <= tail && AfterLastWhere(tail[..AuthorityEnd(tail)], IsAt) == |Mask()|
    ensures UserInfo(hidden) == Some(Placeholder())
    ensures RedactSegment(hidden) == hidden
  {
    MaskReadsAsPlaceholder(tail);
    hide FindSeparator, AfterLastWhere, AuthorityEnd, Mask, Placeholder;
    assert hidden == hidden[..i + 3] + tail;
  }

  /** Redaction works segment by segment: no delimiter moves, and the first URL of every segment is left clean. */
  lemma {:induction false} EverySegmentIsClean(text: string)
    ensures |Segments(Redacted(text))| == |Segments(text)|
    ensures forall k | 0 <= k < |Segments(text)| ::
              && Segments(Redacted(text))[k] == RedactSegment(Segments(text)[k])
              && Clean(Segments(Redacted(text))[k])
    decreases |text|
  {
    hide *;
    var segment, tail := CutFirst(text);
    SegmentIsRedacted(segment, None);
    var hidden := RedactSegment(segment);
    if tail == [] {
      assert segment == text;
      SingleSegment(None, segment);
      SingleSegment(None, hidden);
    } else {
      var d, rest := tail[0], tail[1..];
      SegmentThenRest(None, segment, d, rest);
      SegmentThenRest(None, hidden, d, Redacted(rest));
      EverySegmentIsClean(rest);
    }
  }

  /** Redacting twice is redacting once, and the second pass panics no more than the first. */
  lemma {:induction false} RedactionIsIdempotent(text: string, before: Option<char>)
    ensures Redacted(Redacted(text)) == Redacted(text)
    ensures Panics(before, Redacted(text)) == Panics(before, text)
    decreases |text|
  {
    hide *;
    var segment, tail := CutFirst(text);
    SegmentIsRedacted(segment, before);
    var hidden := RedactSegment(segment);
    if tail == [] {
      assert segment == text;
      SingleSegment(before, segment);
      SingleSegment(before, hidden);
    } else {
      var d, rest := tail[0], tail[1..];
      SegmentThenRest(before, segment, d, rest);
      SegmentThenRest(before, hidden, d, Redacted(rest));
      RedactionIsIdempotent(rest, Some(d));
    }
  }

  /** The text is left alone exactly when no URL in it holds user information other than the placeholder. */
  lemma {:induction false} UnchangedIffClean(text: string)
    ensures Redacted(text) == text <==> forall k | 0 <= k < |Segments(text)| :: Clean(Segments(text)[k])
    decreases |text|
  {
    hide *;
    var segment, tail := CutFirst(text);
    SegmentIsRedacted(segment, None);
    var hidden := RedactSegment(segment);
    if tail == [] {
      assert segment == text && [segment] + [] == [segment];
      SingleSegment(None, segment);
      CleanList(segment, []);
    } else {
      var d, rest := tail[0], tail[1..];
      SegmentThenRest(None, segment, d, rest);
      SameParts(hidden, segment, d, Redacted(rest), rest);
      UnchangedIffClean(rest);
      CleanList(segment, Segments(rest));
    }
  }

  lemma CleanList(first: string, others: seq<string>)
    ensures (forall k | 0 <= k < |[first] + others| :: Clean(([first] + others)[k]))
            <==> Clean(first) && forall k | 0 <= k < |others| :: Clean(others[k])
  {
    hide Clean;
    var whole := [first] + others;
    assert whole[0] == first && forall k | 0 <= k < |others| :: whole[k + 1] == others[k];
    if Clean(first) && forall k | 0 <= k < |others| :: Clean(others[k]) {
      forall k | 0 <= k < |whole| ensures Clean(whole[k]) {
        if k > 0 {
          assert whole[k] == others[k - 1];
        }
      }
    }
    if forall k | 0 <= k < |whole| :: Clean(whole[k]) {
      forall k | 0 <= k < |others| ensures Clean(others[k]) {
        assert Clean(whole[k + 1]);
      }
      assert Clean(whole[0]);
    }
  }

  /** ASCII text never panics. */
  lemma {:induction false} AsciiNeverPanics(text: string, before: Option<char>)
    requires (forall k | 0 <= k < |text| :: IsAscii(text[k])) && (before.Some? ==> IsAscii(before.value))
    ensures !Panics(before, text)
    decreases |text|
  {
    var n := FirstDelimiter(text);
    if n < |text| {
      AsciiNeverPanics(text[n + 1..], Some(text[n]));
    }
  }

  /** A two-byte character directly before a scheme does: the source's `index + 1` lands inside it. */
  lemma AccentBeforeSchemePanics()
    ensures Panics(None, ['\U{e9}', 'a', ':', '/', '/'])
  {
    var text: string := ['\U{e9}', 'a', ':', '/', '/'];
    FirstWhereIs(text, IsDelimiter, 5);
    assert text[..5] == text;
    FirstSeparator(text, 2);
    AfterLastWhereIs(text[..2], IsNotSchemeChar, 1);
  }

  lemma SameParts(hidden: string, segment: string, c: char, redacted: string, rest: string)
    requires IsDelimiter(c) && Whole(hidden) && Whole(segment)
    ensures hidden + ([c] + redacted) == segment + ([c] + rest) <==> hidden == segment && redacted == rest
  {
    hide FirstWhere;
    FirstWhereMeans(hidden, IsDelimiter);
    FirstWhereMeans(segment, IsDelimiter);
    var left, right := hidden + ([c] + redacted), segment + ([c] + rest);
    assert left[|hidden|] == c && right[|segment|] == c;
    assert |hidden| < |segment| ==> !IsDelimiter(right[|hidden|]);
    assert |segment| < |hidden| ==> !IsDelimiter(left[|segment|]);
    if left == right {
      assert |hidden| == |segment|;
      assert left[..|hidden|] == hidden && right[..|segment|] == segment;
      assert left[|hidden| + 1..] == redacted && right[|segment| + 1..] == rest;
    }
  }
}
