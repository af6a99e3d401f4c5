/**
 What redaction leaves behind. It looks only at the first "://" of each stretch between delimiters, so
 user information behind a later "://" of the same stretch survives; here is exactly when.
 */
module RedactLeftovers {
  import opened Common
  import opened RedactUrls

  /** The "://" at `j` is followed by an authority with user information other than the placeholder. */
  predicate LeaksAt(segment: string, j: nat) {
    SeparatorAt(segment, j) && !Clean(segment[j..])
  }

  /** Some "://" from `low` on leaks. */
  predicate LeaksFrom(segment: string, low: nat) {
    exists j | low <= j < |segment| :: LeaksAt(segment, j)
  }

  /** Some "://" after the first leaks: a test on a segment before it is redacted. */
  predicate LeaksLater(segment: string) {
    match FindSeparator(segment)
    case None => false
    case Some(i) => LeaksFrom(segment, i + 1)
  }

  /** A segment's user information is read from its first "://" on. */
  lemma ReadFromSeparator(segment: string, i: nat)
    requires FindSeparator(segment) == Some(i)
    ensures SeparatorAt(segment, i) && (LeaksAt(segment, i) <==> !Clean(segment))
    ensures forall j | 0 <= j < i :: !LeaksAt(segment, j)
  {
    SeparatorMeans(segment);
    hide FindSeparator, AuthorityEnd, AfterLastWhere, Placeholder;
    FirstSeparator(segment[i..], 0);
    assert segment[i..][3..] == segment[i + 3..];
  }

  /** User information holds no "://": an authority holds no '/', and '@' is not ':'. */
  lemma NoSeparatorBeforeHost(rest: string, host: nat, k: nat)
    requires 0 < host == AfterLastWhere(rest[..AuthorityEnd(rest)], IsAt) && k < host
    ensures !SeparatorAt(rest, k)
  {
    HostFollowsAt(rest, host);
    FirstWhereMeans(rest, EndsAuthority);
    hide AfterLastWhere, FirstWhere;
    if k + 1 < host {
      assert !EndsAuthority(rest[k + 1]);
    }
  }

  lemma NoSeparatorInMask(tail: string, k: nat)
    requires Mask() <= tail && k < |Mask()|
    ensures !SeparatorAt(tail, k)
  {
    assert tail[k] == Mask()[k];
  }

  /** Two "://" do not overlap, so a later one lies in what follows the first. */
  lemma SeparatorInTail(segment: string, i: nat, j: nat)
    requires SeparatorAt(segment, i) && i < j && SeparatorAt(segment, j)
    ensures i + 3 <= j && SeparatorAt(segment[i + 3..], j - i - 3)
  {}

  /** Past the host nothing changes but the position. */
  lemma LeakShifts(segment: string, hidden: string, cut: nat, kept: nat, j: nat)
    requires cut <= |hidden| && kept <= |segment| && hidden[cut..] == segment[kept..] && cut <= j
    ensures LeaksAt(hidden, j) == LeaksAt(segment, j - cut + kept)
    ensures j < |hidden| <==> j - cut + kept < |segment|
  {
    hide Clean;
    var tail, k := hidden[cut..], j - cut;
    assert |tail| == |hidden| - cut == |segment| - kept;
    if k < |tail| {
      assert hidden[j..] == tail[k..] == segment[k + kept..];
      assert forall m | 0 <= m < |tail| - k :: tail[k..][m] == hidden[j + m] == segment[k + kept + m];
    }
  }

  lemma LeaksFromShifts(segment: string, hidden: string, cut: nat, kept: nat)
    requires cut <= |hidden| && kept <= |segment| && hidden[cut..] == segment[kept..]
    ensures LeaksFrom(hidden, cut) == LeaksFrom(segment, kept)
  {
    hide LeaksAt;
    if LeaksFrom(hidden, cut) {
      var j :| cut <= j < |hidden| && LeaksAt(hidden, j);
      LeakShifts(segment, hidden, cut, kept, j);
    }
    if LeaksFrom(segment, kept) {
      var j :| kept <= j < |segment| && LeaksAt(segment, j);
      LeakShifts(segment, hidden, cut, kept, j - kept + cut);
    }
  }

  /** Nothing leaks between two positions when every leak lies past the second. */
  lemma LeaksOnlyPast(segment: string, low: nat, high: nat)
    requires low <= high && forall j | low <= j < |segment| && LeaksAt(segment, j) :: high <= j
    ensures LeaksFrom(segment, low) == LeaksFrom(segment, high)
  {
    hide LeaksAt;
  }

  lemma HiddenLeaks(segment: string, i: nat, host: nat)
    requires Whole(segment) && FindSeparator(segment) == Some(i)
    requires var rest := segment[i + 3..]; 0 < host == AfterLastWhere(rest[..AuthorityEnd(rest)], IsAt)
    ensures LeaksFrom(RedactSegment(segment), i + 1) == LeaksFrom(segment, i + 1)
  {
    var hidden, cut, kept := RedactSegment(segment), i + 3 + |Mask()|, i + 3 + host;
    hide *;
    HiddenParts(segment, i, host);
    forall j | i + 1 <= j < |hidden| && LeaksAt(hidden, j) ensures cut <= j {
      LeakIsSeparator(hidden, j);
      SeparatorInTail(hidden, i, j);
      if j < cut {
        NoSeparatorInMask(hidden[i + 3..], j - i - 3);
      }
    }
    LeaksOnlyPast(hidden, i + 1, cut);
    forall j | i + 1 <= j < |segment| && LeaksAt(segment, j) ensures kept <= j {
      LeakIsSeparator(segment, j);
      SeparatorInTail(segment, i, j);
      if j < kept {
        NoSeparatorBeforeHost(segment[i + 3..], host, j - i - 3);
      }
    }
    LeaksOnlyPast(segment, i + 1, kept);
    LeaksFromShifts(segment, hidden, cut, kept);
  }

  lemma LeakIsSeparator(segment: string, j: nat)
    requires LeaksAt(segment, j)
    ensures SeparatorAt(segment, j)
  {}

  lemma HiddenParts(segment: string, i: nat, host: nat)
    requires FindSeparator(segment) == Some(i)
    requires var rest := segment[i + 3..]; 0 < host == AfterLastWhere(rest[..AuthorityEnd(rest)], IsAt)
    ensures var hidden, cut, kept := RedactSegment(segment), i + 3 + |Mask()|, i + 3 + host;
            && SeparatorAt(segment, i) && SeparatorAt(hidden, i)
            && cut <= |hidden| && kept <= |segment| && hidden[cut..] == segment[kept..]
            && Mask() <= hidden[i + 3..]
  {
    hide *;
    var hidden, rest := RedactSegment(segment), segment[i + 3..];
    HostFollowsAt(rest, host);
    HiddenShape(segment, i, host);
    FoundSeparator(segment, i);
    FoundSeparator(hidden, i);
    DropFront(hidden, i + 3, Mask(), rest[host..]);
    assert segment[i + 3 + host..] == rest[host..];
  }

  lemma FoundSeparator(text: string, i: nat)
    requires FindSeparator(text) == Some(i)
    ensures SeparatorAt(text, i)
  {
    SeparatorMeans(text);
  }

  lemma DropFront(text: string, at: nat, front: string, tail: string)
    requires at <= |text| && text[at..] == front + tail
    ensures front <= text[at..] && at + |front| <= |text| && text[at + |front|..] == tail
  {
    assert text[at + |front|..] == text[at..][|front|..];
  }

  /**
   Redacting a segment leaves some "://" with user information if and only if the segment had one after its
   first "://".
   */
  lemma SegmentLeaksExactlyWhen(segment: string)
    requires Whole(segment)
    ensures LeaksFrom(RedactSegment(segment), 0) <==> LeaksLater(segment)
  {
    hide FindSeparator, AuthorityEnd, AfterLastWhere, Mask, Placeholder, Clean, LeaksAt, IsDelimiter;
    match FindSeparator(segment)
    case None => NothingLeaks(segment);
    case Some(i) =>
      var hidden, rest := RedactSegment(segment), segment[i + 3..];
      SegmentIsRedacted(segment, None);
      var host := AfterLastWhere(rest[..AuthorityEnd(rest)], IsAt);
      if host > 0 {
        HiddenShape(segment, i, host);
        HiddenLeaks(segment, i, host);
      } else {
        assert hidden == segment[..i + 3] + rest == segment;
      }
      hide RedactSegment;
      ReadFromSeparator(hidden, i);
      LeaksOnlyPast(hidden, 0, i + 1);
  }

  lemma NothingLeaks(segment: string)
    requires FindSeparator(segment).None?
    ensures RedactSegment(segment) == segment && !LeaksFrom(segment, 0)
  {
    SeparatorMeans(segment);
    hide FindSeparator, Clean;
  }

  /**
   On every text: some URL in the redacted text still shows user information if and only if, before redaction,
   some stretch between delimiters had such a URL behind a "://" that is not its first.
   */
  lemma LeavesUserInfoExactlyWhen(text: string)
    ensures (exists k | 0 <= k < |Segments(Redacted(text))| :: LeaksFrom(Segments(Redacted(text))[k], 0))
            <==> exists k | 0 <= k < |Segments(text)| :: LeaksLater(Segments(text)[k])
  {
    EverySegmentIsClean(text);
    hide Segments, Redacted, RedactSegment, LeaksFrom, LeaksLater, Clean;
    forall k | 0 <= k < |Segments(text)|
      ensures LeaksFrom(Segments(Redacted(text))[k], 0) <==> LeaksLater(Segments(text)[k])
    {
      SegmentsAreWhole(text, k);
      SegmentLeaksExactlyWhen(Segments(text)[k]);
    }
  }

  lemma {:induction false} SegmentsAreWhole(text: string, k: nat)
    requires k < |Segments(text)|
    ensures Whole(Segments(text)[k])
    decreases |text|
  {
    hide *;
    var segment, tail := CutFirst(text);
    if tail == [] {
      assert segment == text;
      SingleSegment(None, segment);
    } else {
      SegmentThenRest(None, segment, tail[0], tail[1..]);
      if k > 0 {
        SegmentsAreWhole(tail[1..], k - 1);
      }
    }
  }

  /** No character that ends an authority. */
  predicate InAuthority(text: string) {
    forall k | 0 <= k < |text| :: !EndsAuthority(text[k])
  }

  /** Redaction replaces a segment's user information by the placeholder, and nothing else. */
  lemma OnlyUserInfoIsReplaced(segment: string, i: nat) returns (tail: string)
    requires FindSeparator(segment) == Some(i)
    ensures match UserInfo(segment)
            case None => RedactSegment(segment) == segment
            case Some(info) =>
              && segment == segment[..i + 3] + (info + ("@" + tail))
              && RedactSegment(segment) == segment[..i + 3] + (Placeholder() + ("@" + tail))
              && InAuthority(info)
  {
    hide FindSeparator, AuthorityEnd, AfterLastWhere, RedactRest, InAuthority, Placeholder;
    var rest := segment[i + 3..];
    var host := AfterLastWhere(rest[..AuthorityEnd(rest)], IsAt);
    assert segment == segment[..i + 3] + rest;
    tail := if host > 0 then rest[host..] else "";
    RestIsReplaced(rest, host);
  }

  lemma RestIsReplaced(rest: string, host: nat)
    requires host == AfterLastWhere(rest[..AuthorityEnd(rest)], IsAt)
    ensures host == 0 ==> RedactRest(rest) == rest
    ensures host > 0 ==>
              && rest == rest[..host - 1] + ("@" + rest[host..])
              && RedactRest(rest) == Placeholder() + ("@" + rest[host..])
              && InAuthority(rest[..host - 1])
  {
    FirstWhereMeans(rest, EndsAuthority);
    hide FirstWhere, AfterLastWhere, Placeholder, EndsAuthority;
    if host > 0 {
      HostFollowsAt(rest, host);
      assert Placeholder() + "@" + rest[host..] == Placeholder() + ("@" + rest[host..]);
    }
  }

  /** So user information in a second URL, inside the path of the first, is left alone. */
  lemma SecondUrlIsKept(secret: string)
    requires forall k | 0 <= k < |secret| :: !IsDelimiter(secret[k])
    ensures var text := "a://b/c://" + secret + "@h";
            !Panics(None, text) && Redacted(text) == text
  {
    hide *;
    var path := "/c://" + secret + "@h";
    assert "a://b/c://" + secret + "@h" == "a://b" + path;
    assert forall k | 0 <= k < |path| :: !IsDelimiter(path[k]) by {
      PathHasNoDelimiter(secret);
    }
    PlainUrlIsKept(path);
  }

  lemma PathHasNoDelimiter(secret: string)
    requires forall k | 0 <= k < |secret| :: !IsDelimiter(secret[k])
    ensures var path := "/c://" + secret + "@h";
            forall k | 0 <= k < |path| :: !IsDelimiter(path[k])
  {
    var (front, back) := ("/c://", "@h");
    assert forall k | 0 <= k < |front| :: !IsDelimiter(front[k]);
    assert forall k | 0 <= k < |back| :: !IsDelimiter(back[k]);
    hide IsDelimiter;
  }

  /** A URL without user information keeps any path. */
  lemma PlainUrlIsKept(path: string)
    requires path != [] && path[0] == '/' && forall k | 0 <= k < |path| :: !IsDelimiter(path[k])
    ensures !Panics(None, "a://b" + path) && Redacted("a://b" + path) == "a://b" + path
  {
    hide *;
    PlainUrlIsWhole(path);
    SingleSegment(None, "a://b" + path);
    PlainUrlParts(path);
    PlainRest(path);
    PlainSegment("a://b" + path, "b" + path);
  }

  lemma PlainUrlIsWhole(path: string)
    requires forall k | 0 <= k < |path| :: !IsDelimiter(path[k])
    ensures Whole("a://b" + path)
  {
    var front := "a://b";
    assert forall k | 0 <= k < |front| :: !IsDelimiter(front[k]);
    hide IsDelimiter, FirstWhere;
    FirstWhereIs(front + path, IsDelimiter, |front + path|);
  }

  lemma PlainUrlParts(path: string)
    ensures var text := "a://b" + path;
            FindSeparator(text) == Some(1) && text[..1] == "a" && text[4..] == "b" + path
  {
    hide FindSeparator;
    FirstSeparator("a://b" + path, 1);
  }

  lemma PlainRest(path: string)
    requires path != [] && path[0] == '/'
    ensures RedactRest("b" + path) == "b" + path
  {
    hide FirstWhere, AfterLastWhere;
    assert ("b" + path)[..1] == "b";
    FirstWhereIs("b" + path, EndsAuthority, 1);
    AfterLastWhereIs("b", IsAt, 0);
  }

  lemma PlainSegment(segment: string, rest: string)
    requires FindSeparator(segment) == Some(1) && segment[..1] == "a" && segment[4..] == rest && RedactRest(rest) == rest
    ensures RedactSegment(segment) == segment && !BadSegment(None, segment)
  {
    hide FindSeparator, AfterLastWhere, RedactRest;
    AfterLastWhereIs("a", IsNotSchemeChar, 0);
    assert segment[..4] + segment[4..] == segment;
  }
}
