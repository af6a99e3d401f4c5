/** Redaction on texts spelled out character by character: what separates URLs, what is hidden, and what panics. */
module RedactedText {
  import opened Common
  import opened RedactUrls

  /** White space of Unicode, and the quotes and angle brackets that diagnostics put around URLs. */
  ghost predicate Separates(c: char) {
    c in {
      '\U{9}', '\U{a}', '\U{b}', '\U{c}', '\U{d}', ' ', '\U{85}', '\U{a0}', '\U{1680}',
      '\U{2000}', '\U{2001}', '\U{2002}', '\U{2003}', '\U{2004}', '\U{2005}', '\U{2006}', '\U{2007}', '\U{2008}',
      '\U{2009}', '\U{200a}', '\U{2028}', '\U{2029}', '\U{202f}', '\U{205f}', '\U{3000}',
      '`', '"', '\'', '<', '>'
    }
  }

  ghost predicate Unseparated(text: string) {
    forall k | 0 <= k < |text| :: !Separates(text[k])
  }

  lemma SeparatesIsDelimiter(c: char)
    ensures Separates(c) <==> IsDelimiter(c)
  {}

  lemma UnseparatedIsWhole(text: string)
    ensures Unseparated(text) <==> Whole(text)
  {
    FirstWhereMeans(text, IsDelimiter);
    forall k | 0 <= k < |text| ensures Separates(text[k]) <==> IsDelimiter(text[k]) {
      SeparatesIsDelimiter(text[k]);
    }
    hide IsDelimiter, Separates, FirstWhere;
  }

  /** Redaction, and panicking, go piece by piece at every separating character. */
  lemma {:induction false} RedactsPieceByPiece(before: Option<char>, left: string, c: char, right: string)
    requires Separates(c)
    ensures Redacted(left + [c] + right) == Redacted(left) + [c] + Redacted(right)
    ensures Panics(before, left + [c] + right) <==> Panics(before, left) || Panics(Some(c), right)
    decreases |left|
  {
    SeparatesIsDelimiter(c);
    hide *;
    var segment, tail := CutFirst(left);
    if tail == [] {
      assert segment == left && left + [c] + right == left + ([c] + right);
      SingleSegment(before, left);
      SegmentThenRest(before, left, c, right);
    } else {
      var d, rest := tail[0], tail[1..];
      SegmentThenRest(before, segment, d, rest);
      RedactsPieceByPiece(Some(d), rest, c, right);
      assert left + [c] + right == segment + ([d] + (rest + [c] + right));
      SegmentThenRest(before, segment, d, rest + [c] + right);
    }
  }

  // ----- one URL

  ghost predicate MarkAt(text: string, j: nat) {
    j + 3 <= |text| && text[j..j + 3] == "://"
  }

  lemma MarkIsSeparator(text: string, j: nat)
    ensures MarkAt(text, j) <==> SeparatorAt(text, j)
  {
    if j + 3 <= |text| {
      assert text[j..j + 3] == [text[j], text[j + 1], text[j + 2]];
      assert SeparatorAt(text, j) ==> text[j..j + 3] == "://";
    }
  }

  /** The "://" that follows `front` is the first one. */
  ghost predicate BeforeUrl(front: string) {
    forall j | 0 <= j < |front| :: !MarkAt(front + "://", j)
  }

  /** None of the characters that end an authority. */
  ghost predicate WithinAuthority(text: string) {
    forall k | 0 <= k < |text| :: text[k] !in {'/', '?', '#'}
  }

  ghost predicate IsSuffix(suffix: string) {
    suffix == "" || suffix[0] in {'/', '?', '#'}
  }

  lemma UrlIsFound(front: string, rest: string)
    requires BeforeUrl(front)
    ensures var text := front + "://" + rest;
            FindSeparator(text) == Some(|front|) && text[..|front| + 3] == front + "://" && text[|front| + 3..] == rest
            && text[..|front|] == front
  {
    var text := front + "://" + rest;
    forall j | 0 <= j < |front| ensures !SeparatorAt(text, j) {
      MarkIsSeparator(front + "://", j);
      assert !MarkAt(front + "://", j);
    }
    hide FindSeparator;
    FirstSeparator(text, |front|);
  }

  lemma AuthorityIsCut(authority: string, suffix: string)
    requires WithinAuthority(authority) && IsSuffix(suffix)
    ensures AuthorityEnd(authority + suffix) == |authority| && (authority + suffix)[..|authority|] == authority
  {
    hide FirstWhere;
    FirstWhereIs(authority + suffix, EndsAuthority, |authority|);
  }

  lemma HiddenRest(info: string, host: string, suffix: string)
    requires WithinAuthority(info) && WithinAuthority(host) && '@' !in host && IsSuffix(suffix)
    ensures RedactRest(info + "@" + host + suffix) == "[REDACTED]@" + host + suffix
  {
    hide AuthorityEnd, FirstWhere, AfterLastWhere;
    var left := info + "@";
    AuthorityIsCut(left + host, suffix);
    HostIsFound(left, host);
    assert (left + host + suffix)[|left|..] == host + suffix;
    assert Mask() == "[REDACTED]@";
    assert "[REDACTED]@" + (host + suffix) == "[REDACTED]@" + host + suffix;
  }

  lemma HostIsFound(left: string, host: string)
    requires left != "" && left[|left| - 1] == '@' && '@' !in host
    ensures AfterLastWhere(left + host, IsAt) == |left|
  {
    hide AfterLastWhere;
    forall j | |left| <= j < |left + host| ensures !IsAt((left + host)[j]) {
      assert (left + host)[j] == host[j - |left|];
    }
    AfterLastWhereIs(left + host, IsAt, |left|);
  }

  lemma PlainRestIsKept(host: string, suffix: string)
    requires WithinAuthority(host) && '@' !in host && IsSuffix(suffix)
    ensures RedactRest(host + suffix) == host + suffix
  {
    AuthorityIsCut(host, suffix);
    hide AuthorityEnd, AfterLastWhere;
    AfterLastWhereMeans(host, IsAt);
  }

  /**
   A URL's user information, whatever it holds but the end of the authority, is replaced by the placeholder up to
   the last '@' of the authority; everything in front of it and from the host on is kept.
   */
  lemma HidesUserInfo(front: string, info: string, host: string, suffix: string)
    requires BeforeUrl(front) && WithinAuthority(info) && WithinAuthority(host) && '@' !in host && IsSuffix(suffix)
    ensures var url := front + "://" + (info + "@" + host + suffix);
            var hidden := front + "://" + ("[REDACTED]@" + host + suffix);
            RedactUrl(url) == hidden && (Unseparated(url) ==> Redacted(url) == hidden)
  {
    hide *;
    var rest := info + "@" + host + suffix;
    UrlIsFound(front, rest);
    HiddenRest(info, host, suffix);
    OneUrl(front, rest);
  }

  /** A URL without user information in its authority is kept as it is. */
  lemma KeepsPlainUrl(front: string, host: string, suffix: string)
    requires BeforeUrl(front) && WithinAuthority(host) && '@' !in host && IsSuffix(suffix)
    ensures var url := front + "://" + (host + suffix);
            RedactUrl(url) == url && (Unseparated(url) ==> Redacted(url) == url)
  {
    hide *;
    UrlIsFound(front, host + suffix);
    PlainRestIsKept(host, suffix);
    OneUrl(front, host + suffix);
  }

  lemma OneUrl(front: string, rest: string)
    requires BeforeUrl(front)
    ensures var url := front + "://" + rest;
            var redacted := front + "://" + RedactRest(rest);
            RedactUrl(url) == redacted && (Unseparated(url) ==> Redacted(url) == redacted)
  {
    var url := front + "://" + rest;
    UrlIsFound(front, rest);
    RedactUrlShape(url, |front|);
    UnseparatedIsWhole(url);
    hide FindSeparator, RedactUrl, RedactRest, Unseparated, Redacted, Whole, Panics;
    if Whole(url) {
      SingleSegment(None, url);
    }
  }

  // ----- the panic

  /** ASCII letters, digits, '+', '-' and '.'. */
  ghost predicate IsScheme(text: string) {
    forall k | 0 <= k < |text| ::
      || text[k] in {'+', '-', '.'} || 'a' <= text[k] <= 'z' || 'A' <= text[k] <= 'Z' || '0' <= text[k] <= '9'
  }

  lemma SchemeIsFound(front: string, scheme: string)
    requires IsScheme(scheme) && (front == "" || !IsScheme([front[|front| - 1]]))
    ensures SchemeStart(front + scheme) == |front|
  {
    var text := front + scheme;
    forall j | |front| <= j < |text| ensures !IsNotSchemeChar(text[j]) {
      assert text[j] == scheme[j - |front|];
    }
    if front != "" {
      assert [front[|front| - 1]][0] == text[|front| - 1];
    }
    AfterLastWhereIs(text, IsNotSchemeChar, |front|);
  }

  /**
   A text without separators panics exactly when the character in front of its first URL's scheme, in the text or
   just before it, takes more than one byte.
   */
  lemma PanicsExactlyWhen(before: Option<char>, front: string, scheme: string, rest: string)
    requires IsScheme(scheme) && (front == "" || !IsScheme([front[|front| - 1]])) && BeforeUrl(front + scheme)
    requires Unseparated(front + scheme + "://" + rest)
    ensures Panics(before, front + scheme + "://" + rest)
            <==> if front != "" then front[|front| - 1] as int >= 128 else before.Some? && before.value as int >= 128
  {
    hide *;
    var text := front + scheme + "://" + rest;
    UnseparatedIsWhole(text);
    UrlIsFound(front + scheme, rest);
    SchemeIsFound(front, scheme);
    SingleSegment(before, text);
    BadStartIs(before, text, front, scheme);
  }

  lemma BadStartIs(before: Option<char>, text: string, front: string, scheme: string)
    requires FindSeparator(text) == Some(|front + scheme|) && text[..|front + scheme|] == front + scheme
    requires SchemeStart(front + scheme) == |front|
    ensures BadSegment(before, text)
            <==> if front != "" then front[|front| - 1] as int >= 128 else before.Some? && before.value as int >= 128
  {
    hide FindSeparator, SchemeStart;
    if front != "" {
      assert text[|front| - 1] == (front + scheme)[|front| - 1] == front[|front| - 1];
    }
  }

  /** Text without "://" neither changes nor panics. */
  lemma KeepsPlainText(before: Option<char>, text: string)
    requires Unseparated(text) && forall j | 0 <= j < |text| :: !MarkAt(text, j)
    ensures Redacted(text) == text && !Panics(before, text)
  {
    UnseparatedIsWhole(text);
    forall j | 0 <= j < |text| ensures !SeparatorAt(text, j) {
      MarkIsSeparator(text, j);
    }
    hide FindSeparator, Redacted, Panics, Whole, Unseparated;
    NoSeparator(text);
    SingleSegment(before, text);
  }
}
