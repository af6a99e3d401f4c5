/** How long a fetched key set may be cached, from the Cache-Control and Age header lines. */
module JwksTtl {
  import opened Common
  import opened Text

  const DEFAULT_TTL: nat := 300
  const MAX_TTL: nat := 3600

  /** A header line; absent text when it is not visible ASCII. */
  type Line = Option<string>

  datatype Directive = Uncacheable | MaxAge(seconds: Option<nat>) | Other

  predicate IsQuote(c: char) {
    c == '"'
  }

  function Classify(directive: string): Directive {
    if EqualsIgnoringCase(directive, "no-cache") || EqualsIgnoringCase(directive, "no-store") then Uncacheable
    else
      match SplitOnce(directive, '=')
      case Some((name, seconds)) =>
        if EqualsIgnoringCase(Trim(name, IsBlank), "max-age")
        then MaxAge(ParseU64(Trim(Trim(seconds, IsBlank), IsQuote)))
        else Other
      case None => Other
  }

  /** The directives among the first pieces of one line. */
  function Classified(pieces: seq<string>): seq<Directive> {
    seq(|pieces|, k requires 0 <= k < |pieces| => Classify(Trim(pieces[k], IsBlank)))
  }

  function DirectivesOf(line: Line): seq<Directive> {
    if line.Some? then Classified(Split(line.value, ',')) else []
  }

  function Directives(lines: seq<Line>): seq<Directive> {
    if lines == [] then [] else Directives(lines[..|lines| - 1]) + DirectivesOf(lines[|lines| - 1])
  }

  function AgeOf(line: Line): Option<nat> {
    if line.Some? then ParseU64(Trim(line.value, IsBlank)) else None
  }

  /** `least` is the smallest parsed max-age, if there is any. */
  ghost predicate IsLeastMaxAge(directives: seq<Directive>, least: Option<nat>) {
    match least
    case None => forall n :: MaxAge(Some(n)) !in directives
    case Some(m) => MaxAge(Some(m)) in directives && forall n | MaxAge(Some(n)) in directives :: m <= n
  }

  /** `greatest` is the largest parsed age, zero if there is none. */
  ghost predicate IsGreatestAge(lines: seq<Line>, greatest: nat) {
    && (greatest == 0 || exists line | line in lines :: AgeOf(line) == Some(greatest))
    && (forall line | line in lines && AgeOf(line).Some? :: AgeOf(line).value <= greatest)
  }

  function SaturatingSub(a: nat, b: nat): nat {
    if b <= a then a - b else 0
  }

  function Lifetime(maxAge: Option<nat>, age: nat): nat {
    match maxAge
    case None => SaturatingSub(DEFAULT_TTL, age)
    case Some(seconds) =>
      var left := SaturatingSub(seconds, age);
      if left < MAX_TTL then left else MAX_TTL
  }

  /** What RFC 9111 sections 5.1 and 5.2.2 and the two local bounds make of the lines. */
  ghost predicate IsTtl(cacheControl: seq<Line>, ages: seq<Line>, ttl: nat) {
    var directives := Directives(cacheControl);
    if Uncacheable in directives then ttl == 0
    else exists least, age ::
      IsLeastMaxAge(directives, least) && IsGreatestAge(ages, age) && ttl == Lifetime(least, age)
  }

  function Least(least: Option<nat>, parsed: Option<nat>): Option<nat> {
    match (least, parsed)
    case (Some(existing), Some(another)) => Some(if existing < another then existing else another)
    case (None, _) => parsed
    case (_, None) => least
  }

  lemma LeastExtends(directives: seq<Directive>, least: Option<nat>, directive: Directive)
    requires IsLeastMaxAge(directives, least)
    ensures IsLeastMaxAge(directives + [directive],
                          if directive.MaxAge? then Least(least, directive.seconds) else least)
  {}

  method MaxAgeOf(pieces: seq<string>, ghost before: seq<Directive>, start: Option<nat>)
    returns (stop: bool, least: Option<nat>)
    requires Uncacheable !in before && IsLeastMaxAge(before, start)
    ensures stop <==> Uncacheable in Classified(pieces)
    ensures !stop ==> IsLeastMaxAge(before + Classified(pieces), least)
  {
    hide IsLeastMaxAge, Classify;
    least := start;
    var k := 0;
    assert before + Classified(pieces)[..0] == before;
    while k < |pieces|
      invariant 0 <= k <= |pieces|
      invariant Uncacheable !in Classified(pieces)[..k]
      invariant IsLeastMaxAge(before + Classified(pieces)[..k], least)
    {
      ghost var done := Classified(pieces);
      var directive := Classify(Trim(pieces[k], IsBlank));
      assert done[k] == directive && done[..k + 1] == done[..k] + [directive];
      if directive.Uncacheable? {
        return true, least;
      }
      LeastExtends(before + done[..k], least, directive);
      assert before + done[..k + 1] == before + done[..k] + [directive];
      if directive.MaxAge? {
        least := Least(least, directive.seconds);
      }
      k := k + 1;
    }
    assert Classified(pieces)[..k] == Classified(pieces);
    stop := false;
  }

  method GreatestAge(ages: seq<Line>) returns (age: nat)
    ensures IsGreatestAge(ages, age)
  {
    hide AgeOf;
    age := 0;
    for k := 0 to |ages|
      invariant IsGreatestAge(ages[..k], age)
    {
      var parsed := AgeOf(ages[k]);
      assert ages[..k + 1] == ages[..k] + [ages[k]];
      assert forall line :: line in ages[..k + 1] <==> line in ages[..k] || line == ages[k];
      if parsed.Some? && parsed.value > age {
        age := parsed.value;
      }
    }
    assert ages[..|ages|] == ages;
  }

  lemma OneMoreLine(lines: seq<Line>, k: nat)
    requires k < |lines|
    ensures Directives(lines[..k + 1]) == Directives(lines[..k]) + DirectivesOf(lines[k])
    ensures lines[k].None? ==> Directives(lines[..k + 1]) == Directives(lines[..k])
  {
    assert lines[..k + 1][..k] == lines[..k];
  }

  lemma NoDirectives()
    ensures Directives([]) == [] && IsLeastMaxAge([], None)
  {}

  lemma ForbiddenLifetime(cacheControl: seq<Line>, ages: seq<Line>, k: nat)
    requires k < |cacheControl| && Uncacheable in DirectivesOf(cacheControl[k])
    ensures IsTtl(cacheControl, ages, 0)
  {
    OneMoreLine(cacheControl, k);
    DirectivesPrefix(cacheControl, k + 1);
    hide Directives, DirectivesOf;
  }

  method Ttl(cacheControl: seq<Line>, ages: seq<Line>) returns (ttl: nat)
    ensures IsTtl(cacheControl, ages, ttl)
  {
    hide Classified, Split, IsLeastMaxAge, IsGreatestAge, Directives, Lifetime;
    assert cacheControl[..0] == [] && cacheControl[..|cacheControl|] == cacheControl;
    NoDirectives();
    var least: Option<nat> := None;
    for k := 0 to |cacheControl|
      invariant Uncacheable !in Directives(cacheControl[..k])
      invariant IsLeastMaxAge(Directives(cacheControl[..k]), least)
    {
      OneMoreLine(cacheControl, k);
      if cacheControl[k].Some? {
        var stop;
        stop, least := MaxAgeOf(Split(cacheControl[k].value, ','), Directives(cacheControl[..k]), least);
        if stop {
          ForbiddenLifetime(cacheControl, ages, k);
          return 0;
        }
      }
    }
    var age := GreatestAge(ages);
    ttl := Lifetime(least, age);
  }

  lemma {:induction false} DirectivesPrefix(lines: seq<Line>, k: nat)
    requires k <= |lines|
    ensures forall d | d in Directives(lines[..k]) :: d in Directives(lines)
  {
    if k == |lines| {
      assert lines[..k] == lines;
    } else {
      assert lines[..|lines| - 1][..k] == lines[..k];
      DirectivesPrefix(lines[..|lines| - 1], k);
    }
  }

  // ----- the lifetime is a function of which directives and ages are present

  ghost predicate SameMembers<T(!new)>(a: seq<T>, b: seq<T>) {
    forall x :: x in a <==> x in b
  }

  lemma LeastIsUnique(directives: seq<Directive>, other: seq<Directive>, a: Option<nat>, b: Option<nat>)
    requires SameMembers(directives, other) && IsLeastMaxAge(directives, a) && IsLeastMaxAge(other, b)
    ensures a == b
  {}

  lemma GreatestIsUnique(ages: seq<Line>, other: seq<Line>, a: nat, b: nat)
    requires SameMembers(ages, other) && IsGreatestAge(ages, a) && IsGreatestAge(other, b)
    ensures a == b
  {}

  /** The lines determine the lifetime. */
  lemma TtlIsUnique(cacheControl: seq<Line>, ages: seq<Line>, ttl: nat, other: nat)
    requires IsTtl(cacheControl, ages, ttl) && IsTtl(cacheControl, ages, other)
    ensures ttl == other
  {
    var directives := Directives(cacheControl);
    if Uncacheable !in directives {
      var least, age :| IsLeastMaxAge(directives, least) && IsGreatestAge(ages, age) && ttl == Lifetime(least, age);
      var least', age' :| IsLeastMaxAge(directives, least') && IsGreatestAge(ages, age') && other == Lifetime(least', age');
      LeastIsUnique(directives, directives, least, least');
      GreatestIsUnique(ages, ages, age, age');
    }
  }

  lemma SameLeast(directives: seq<Directive>, others: seq<Directive>, least: Option<nat>)
    requires SameMembers(directives, others)
    ensures IsLeastMaxAge(directives, least) == IsLeastMaxAge(others, least)
  {}

  lemma SameGreatest(ages: seq<Line>, others: seq<Line>, age: nat)
    requires SameMembers(ages, others)
    ensures IsGreatestAge(ages, age) == IsGreatestAge(others, age)
  {}

  /** Neither the order nor the repetition of header lines and directives matters. */
  lemma OrderDoesNotMatter(
      cacheControl: seq<Line>, ages: seq<Line>, otherControl: seq<Line>, otherAges: seq<Line>, ttl: nat)
    requires SameMembers(Directives(cacheControl), Directives(otherControl)) && SameMembers(ages, otherAges)
    ensures IsTtl(cacheControl, ages, ttl) <==> IsTtl(otherControl, otherAges, ttl)
  {
    forall least ensures IsLeastMaxAge(Directives(cacheControl), least) == IsLeastMaxAge(Directives(otherControl), least) {
      SameLeast(Directives(cacheControl), Directives(otherControl), least);
    }
    forall age ensures IsGreatestAge(ages, age) == IsGreatestAge(otherAges, age) {
      SameGreatest(ages, otherAges, age);
    }
  }

  lemma {:induction false} DirectivesConcat(left: seq<Line>, right: seq<Line>)
    ensures Directives(left + right) == Directives(left) + Directives(right)
  {
    hide DirectivesOf;
    if right == [] {
      assert left + right == left;
    } else {
      var n := |right| - 1;
      assert (left + right)[..|left| + n] == left + right[..n];
      DirectivesConcat(left, right[..n]);
    }
  }

  predicate OnSomeLine(lines: seq<Line>, d: Directive) {
    exists k | 0 <= k < |lines| :: d in DirectivesOf(lines[k])
  }

  lemma OnSomeLineStep(lines: seq<Line>, line: Line, d: Directive)
    ensures OnSomeLine(lines + [line], d) <==> OnSomeLine(lines, d) || d in DirectivesOf(line)
  {
    hide DirectivesOf;
    var longer := lines + [line];
    assert forall k | 0 <= k < |lines| :: longer[k] == lines[k];
    assert longer[|lines|] == line;
  }

  lemma {:induction false} DirectiveIsOnSomeLine(lines: seq<Line>, d: Directive)
    ensures d in Directives(lines) <==> OnSomeLine(lines, d)
  {
    hide *;
    if lines == [] {
      NoDirectives();
      OnNoLine(d);
    } else {
      var n := |lines| - 1;
      DirectiveIsOnSomeLine(lines[..n], d);
      OneMoreLine(lines, n);
      OnSomeLineStep(lines[..n], lines[n], d);
      LastLine(lines);
    }
  }

  lemma OnNoLine(d: Directive)
    ensures !OnSomeLine([], d)
  {}

  lemma LastLine(lines: seq<Line>)
    requires lines != []
    ensures var n := |lines| - 1; lines[..n + 1] == lines == lines[..n] + [lines[n]]
  {}

  /** The directives depend only on which lines there are. */
  lemma SameLines(lines: seq<Line>, others: seq<Line>)
    requires SameMembers(lines, others)
    ensures SameMembers(Directives(lines), Directives(others))
  {
    hide Directives, DirectivesOf;
    assert forall k | 0 <= k < |lines| :: lines[k] in others;
    assert forall k | 0 <= k < |others| :: others[k] in lines;
    forall d ensures d in Directives(lines) <==> d in Directives(others) {
      DirectiveIsOnSomeLine(lines, d);
      DirectiveIsOnSomeLine(others, d);
    }
  }

  /** Header lines in any order and number give the same lifetime. */
  lemma LinesCommute(cacheControl: seq<Line>, ages: seq<Line>, otherControl: seq<Line>, otherAges: seq<Line>, ttl: nat)
    requires SameMembers(cacheControl, otherControl) && SameMembers(ages, otherAges)
    ensures IsTtl(cacheControl, ages, ttl) <==> IsTtl(otherControl, otherAges, ttl)
  {
    hide *;
    SameLines(cacheControl, otherControl);
    OrderDoesNotMatter(cacheControl, ages, otherControl, otherAges, ttl);
  }

  /** One comma-joined line means the same as two lines. */
  lemma LinesCombine(left: string, right: string)
    ensures Directives([Some(left + "," + right)]) == Directives([Some(left), Some(right)])
  {
    SplitJoined(left, ',', right);
    ClassifiedConcat(Split(left, ','), Split(right, ','));
    OneLine(left + "," + right);
    OneLine(left);
    OneLine(right);
    hide *;
    var apart: seq<Line> := [Some(left), Some(right)];
    assert apart == [Some(left)] + [Some(right)];
    DirectivesConcat([Some(left)], [Some(right)]);
  }

  lemma ClassifiedConcat(left: seq<string>, right: seq<string>)
    ensures Classified(left + right) == Classified(left) + Classified(right)
  {}

  lemma OneLine(line: string)
    ensures Directives([Some(line)]) == Classified(Split(line, ','))
  {}

  /** No lifetime exceeds an hour. */
  lemma TtlIsBounded(cacheControl: seq<Line>, ages: seq<Line>, ttl: nat)
    requires IsTtl(cacheControl, ages, ttl)
    ensures ttl <= 3600
  {}

  // ----- the directive reader

  /** Spaces and tabs only. */
  ghost predicate AllBlank(text: string) {
    forall k | 0 <= k < |text| :: text[k] in {' ', '\t'}
  }

  /** `name` is `lower` in any letter case; `lower` has no capitals. */
  ghost predicate Spells(name: string, lower: string) {
    |name| == |lower|
    && forall k | 0 <= k < |name| ::
         name[k] == lower[k] || ('a' <= lower[k] <= 'z' && name[k] as nat + 32 == lower[k] as nat)
  }

  lemma SpellsIgnoringCase(name: string, lower: string)
    requires forall k | 0 <= k < |lower| :: !('A' <= lower[k] <= 'Z')
    ensures Spells(name, lower) <==> EqualsIgnoringCase(name, lower)
  {
    if |name| == |lower| {
      forall k | 0 <= k < |name|
        ensures (name[k] == lower[k] || ('a' <= lower[k] <= 'z' && name[k] as nat + 32 == lower[k] as nat))
                <==> Lower(name[k]) == Lower(lower[k])
      {}
    }
  }

  /** A directive forbids caching exactly when it spells no-cache or no-store, in any letter case. */
  lemma ForbidsExactlyWhen(directive: string)
    ensures Classify(directive).Uncacheable? <==> Spells(directive, "no-cache") || Spells(directive, "no-store")
  {
    SpellsIgnoringCase(directive, "no-cache");
    SpellsIgnoringCase(directive, "no-store");
    hide EqualsIgnoringCase, Spells;
  }

  /** A directive with a value is a max-age exactly when its trimmed name spells max-age; any other is ignored. */
  lemma DirectiveWithValue(name: string, value: string)
    requires '=' !in name
    ensures Classify(name + "=" + value)
            == if Spells(Trim(name, IsBlank), "max-age") then MaxAge(ParseU64(Trim(Trim(value, IsBlank), IsQuote))) else Other
  {
    var directive := name + "=" + value;
    SplitAtFirst(name, '=', value);
    SpellsIgnoringCase(Trim(name, IsBlank), "max-age");
    ForbidsExactlyWhen(directive);
    assert directive[|name|] == '=';
    HoldsNoEquals(directive, "no-cache", |name|);
    HoldsNoEquals(directive, "no-store", |name|);
    hide Spells, EqualsIgnoringCase, Trim, ParseU64, SplitOnce;
  }

  lemma HoldsNoEquals(directive: string, lower: string, k: nat)
    requires k < |directive| && directive[k] == '=' && forall j | 0 <= j < |lower| :: lower[j] == '-' || 'a' <= lower[j] <= 'z'
    ensures !Spells(directive, lower)
  {}

  /** A directive without a value forbids caching or is ignored. */
  lemma DirectiveWithoutValue(directive: string)
    requires '=' !in directive
    ensures Classify(directive)
            == if Spells(directive, "no-cache") || Spells(directive, "no-store") then Uncacheable else Other
  {
    ForbidsExactlyWhen(directive);
    NothingToSplit(directive, '=');
    hide Spells, EqualsIgnoringCase, SplitOnce;
  }

  /** A line without a comma is one directive, trimmed. */
  lemma OneDirective(left: string, directive: string, right: string)
    requires AllBlank(left) && AllBlank(right) && directive != [] && ',' !in directive
    requires !AllBlank([directive[0]]) && !AllBlank([directive[|directive| - 1]])
    ensures Directives([Some(left + directive + right)]) == [Classify(directive)]
  {
    var line := left + directive + right;
    assert [directive[0]][0] == directive[0] && [directive[|directive| - 1]][0] == directive[|directive| - 1];
    TrimAround(left, directive, right, IsBlank);
    OneLine(line);
    hide Trim, Classify, Directives;
    assert ',' !in line;
    NothingToSplit(line, ',');
  }

  lemma NoComma(name: string, lower: string)
    requires Spells(name, lower) && |lower| == 8 && forall k | 0 <= k < |lower| :: lower[k] == '-' || 'a' <= lower[k] <= 'z'
    ensures ',' !in name && !AllBlank([name[0]]) && !AllBlank([name[7]])
  {
    assert [name[0]][0] == name[0] && [name[7]][0] == name[7];
  }

  /** Any line that is no-cache or no-store, in any letter case and with any blanks around it, gives zero. */
  lemma ForbiddenLineGivesZero(
      before: seq<Line>, left: string, name: string, right: string, after: seq<Line>, ages: seq<Line>, ttl: nat)
    requires AllBlank(left) && AllBlank(right) && (Spells(name, "no-cache") || Spells(name, "no-store"))
    ensures IsTtl(before + [Some(left + name + right)] + after, ages, ttl) <==> ttl == 0
  {
    NoComma(name, if Spells(name, "no-cache") then "no-cache" else "no-store");
    ForbidsExactlyWhen(name);
    hide Classify, Directives, AllBlank, Spells;
    OneDirective(left, name, right);
    DirectivesConcat(before, [Some(left + name + right)]);
    DirectivesConcat(before + [Some(left + name + right)], after);
    assert Uncacheable in [Classify(name)];
  }

  /**
   Otherwise, in numbers: with least max-age m and greatest age a the lifetime is the least of 3600 and
   max(0, m - a), and without a max-age it is max(0, 300 - a).
   */
  lemma LifetimeInNumbers(cacheControl: seq<Line>, ages: seq<Line>, least: Option<nat>, age: nat, ttl: nat)
    requires Uncacheable !in Directives(cacheControl)
    requires IsLeastMaxAge(Directives(cacheControl), least) && IsGreatestAge(ages, age)
    ensures IsTtl(cacheControl, ages, ttl) <==>
              match least
              case None => (if age < 300 then ttl == 300 - age else ttl == 0)
              case Some(m) => (if m <= age then ttl == 0 else if m - age < 3600 then ttl == m - age else ttl == 3600)
  {
    var inNumbers := Lifetime(least, age);
    assert IsTtl(cacheControl, ages, inNumbers);
    if IsTtl(cacheControl, ages, ttl) {
      TtlIsUnique(cacheControl, ages, ttl, inNumbers);
    }
  }

  /** From header text to seconds: `max-age=m` and `Age: a`, for all 64-bit numbers. */
  lemma HeadersInNumbers(m: nat, a: nat, ttl: nat)
    requires m <= 0xffff_ffff_ffff_ffff && a <= 0xffff_ffff_ffff_ffff
    ensures IsTtl([Some("max-age=" + Decimal(m))], [Some(Decimal(a))], ttl)
            <==> if m <= a then ttl == 0 else if m - a < 3600 then ttl == m - a else ttl == 3600
  {
    hide *;
    var line := "max-age=" + Decimal(m);
    PlainMaxAge(m);
    PlainAge(a);
    SoleAge(Some(Decimal(a)), a);
    SoleMaxAge(m);
    LifetimeInNumbers([Some(line)], [Some(Decimal(a))], Some(m), a, ttl);
  }

  lemma PlainAge(a: nat)
    requires a <= 0xffff_ffff_ffff_ffff
    ensures AgeOf(Some(Decimal(a))) == Some(a)
  {
    assert AllBlank("");
    hide *;
    AgeIsRead("", a, "");
    assert "" + Decimal(a) + "" == Decimal(a);
  }

  lemma SoleAge(line: Line, a: nat)
    requires AgeOf(line) == Some(a)
    ensures IsGreatestAge([line], a)
  {
    hide AgeOf;
    assert line in [line];
  }

  lemma SoleMaxAge(m: nat)
    ensures IsLeastMaxAge([MaxAge(Some(m))], Some(m)) && Uncacheable !in [MaxAge(Some(m))]
  {}

  lemma PlainMaxAge(m: nat)
    requires m <= 0xffff_ffff_ffff_ffff
    ensures Directives([Some("max-age=" + Decimal(m))]) == [MaxAge(Some(m))]
  {
    var directive := "max-age" + "=" + Decimal(m);
    PlainDirective(m);
    assert AllBlank("") && Spells("max-age", "max-age");
    hide *;
    assert "" + directive + "" == directive && directive == "max-age=" + Decimal(m);
    MaxAgeIsRead("", "max-age", "", "", m, false, "");
    assert "max-age" + "" == "max-age" && "" + Decimal(m) == Decimal(m);
    OneDirective("", directive, "");
  }

  lemma PlainDirective(m: nat)
    ensures var directive := "max-age" + "=" + Decimal(m);
            && ',' !in directive
            && !AllBlank([directive[0]]) && !AllBlank([directive[|directive| - 1]])
            && Trim(directive, IsBlank) == directive
  {
    var directive := "max-age" + "=" + Decimal(m);
    DecimalIsCanonical(m);
    hide Decimal, Trim;
    assert directive[0] == 'm' && directive[|directive| - 1] == Decimal(m)[|Decimal(m)| - 1];
    assert [directive[0]][0] == directive[0] && [directive[|directive| - 1]][0] == directive[|directive| - 1];
    TrimNothing(directive, IsBlank);
  }

  /** An Age line with blanks around its number is read as the number. */
  lemma AgeIsRead(left: string, age: nat, right: string)
    requires AllBlank(left) && AllBlank(right) && age <= 0xffff_ffff_ffff_ffff
    ensures AgeOf(Some(left + Decimal(age) + right)) == Some(age)
  {
    DecimalRoundTrip(age);
    DecimalIsCanonical(age);
    hide Decimal, Trim;
    TrimAround(left, Decimal(age), right, IsBlank);
  }

  /** A 64-bit number may carry a plus sign; a greater one, or any other character, is not a number. */
  lemma NumbersRead(n: nat, text: string, k: nat)
    ensures n <= 0xffff_ffff_ffff_ffff ==> ParseU64("+" + Decimal(n)) == ParseU64(Decimal(n)) == Some(n)
    ensures n > 0xffff_ffff_ffff_ffff ==> ParseU64(Decimal(n)) == None
    ensures k < |text| && !('0' <= text[k] <= '9') && (k > 0 || text[k] != '+') ==> ParseU64(text) == None
    ensures ParseU64("") == ParseU64("+") == None
  {
    DecimalRoundTrip(n);
    DecimalIsCanonical(n);
    hide Decimal, Number;
    assert ("+" + Decimal(n))[1..] == Decimal(n);
    if k < |text| && !('0' <= text[k] <= '9') && (k > 0 || text[k] != '+') {
      assert text[0] == '+' ==> text[1..][k - 1] == text[k];
    }
  }

  /** A line that is not visible ASCII is passed over. */
  lemma UnreadableLinesArePassedOver(lines: seq<Line>, more: seq<Line>, greatest: nat)
    ensures Directives(lines + [None] + more) == Directives(lines + more)
    ensures IsGreatestAge(lines + [None] + more, greatest) <==> IsGreatestAge(lines + more, greatest)
  {
    DirectivesConcat(lines + [None], more);
    DirectivesConcat(lines, [None]);
    DirectivesConcat(lines, more);
    assert Directives([None]) == [];
    hide Directives;
    assert Directives(lines) + [] == Directives(lines);
    assert AgeOf(None) == None;
    hide AgeOf;
    assert forall line :: line in lines + [None] + more <==> line in lines + more || line == None;
  }

  /** Any spelling of max-age: letter case, blanks around the name, the number and the whole, and quotes make no difference. */
  lemma MaxAgeIsRead(left: string, name: string, a: string, b: string, seconds: nat, quoted: bool, right: string)
    requires AllBlank(left) && AllBlank(a) && AllBlank(b) && AllBlank(right)
    requires Spells(name, "max-age") && seconds <= 0xffff_ffff_ffff_ffff
    ensures var number := if quoted then "\"" + Decimal(seconds) + "\"" else Decimal(seconds);
            Classify(Trim(left + (name + a + "=" + (b + number)) + right, IsBlank)) == MaxAge(Some(seconds))
  {
    var number := if quoted then "\"" + Decimal(seconds) + "\"" else Decimal(seconds);
    SpellsIgnoringCase(name, "max-age");
    NameIsPlain(name);
    NumberIsRead(seconds, quoted);
    hide Decimal, EqualsIgnoringCase, ParseU64, Trim, Classify, Spells;
    TrimDirective(left, name + a, b + number, right);
    BlanksHoldNoEquals(name, a);
    TrimBehind(name, a);
    TrimAhead(b, number);
    assert (name + a)[..7] == name;
    ClassifyMaxAge(name + a, name, b + number, number, seconds);
  }

  lemma BlanksHoldNoEquals(name: string, blanks: string)
    requires AllBlank(blanks) && '=' !in name
    ensures '=' !in name + blanks
  {}

  lemma TrimBehind(text: string, blanks: string)
    requires AllBlank(blanks) && text != [] && !IsBlank(text[0]) && !IsBlank(text[|text| - 1])
    ensures Trim(text + blanks, IsBlank) == text
  {
    hide Trim;
    TrimAround("", text, blanks, IsBlank);
    assert "" + text + blanks == text + blanks;
  }

  lemma TrimAhead(blanks: string, text: string)
    requires AllBlank(blanks) && text != [] && !IsBlank(text[0]) && !IsBlank(text[|text| - 1])
    ensures Trim(blanks + text, IsBlank) == text
  {
    hide Trim;
    TrimAround(blanks, text, "", IsBlank);
    assert blanks + text + "" == blanks + text;
  }

  lemma TrimDirective(left: string, front: string, back: string, right: string)
    requires AllBlank(left) && AllBlank(right) && front != [] && !IsBlank(front[0])
    requires back != [] && !IsBlank(back[|back| - 1])
    ensures Trim(left + (front + "=" + back) + right, IsBlank) == front + "=" + back
  {
    var directive := front + "=" + back;
    assert directive[0] == front[0] && directive[|directive| - 1] == back[|back| - 1];
    hide Trim;
    TrimAround(left, directive, right, IsBlank);
  }

  lemma ClassifyMaxAge(front: string, name: string, back: string, number: string, seconds: nat)
    requires '=' !in front && |front| >= 7 && front[..7] == name && Trim(front, IsBlank) == name
    requires EqualsIgnoringCase(name, "max-age") && Trim(back, IsBlank) == number
    requires ParseU64(Trim(number, IsQuote)) == Some(seconds)
    ensures Classify(front + "=" + back) == MaxAge(Some(seconds))
  {
    var directive := front + "=" + back;
    SplitAtFirst(front, '=', back);
    hide ParseU64, Trim, SplitOnce;
    assert directive[..7] == name;
    NotUncacheable(directive);
  }

  lemma NumberIsRead(seconds: nat, quoted: bool)
    requires seconds <= U64_MAX
    ensures var number := if quoted then "\"" + Decimal(seconds) + "\"" else Decimal(seconds);
            && number != [] && !IsBlank(number[0]) && !IsBlank(number[|number| - 1])
            && ParseU64(Trim(number, IsQuote)) == Some(seconds)
  {
    var digits := Decimal(seconds);
    DecimalRoundTrip(seconds);
    assert ParseU64(digits) == Some(seconds);
    hide Decimal, ParseU64, Trim;
    if quoted {
      TrimAround("\"", digits, "\"", IsQuote);
    } else {
      TrimNothing(digits, IsQuote);
    }
  }

  lemma NameIsPlain(name: string)
    requires EqualsIgnoringCase(name, "max-age")
    ensures |name| == 7 && !IsBlank(name[0]) && !IsBlank(name[6]) && '=' !in name
  {}

  /** What begins with max-age is neither no-cache nor no-store. */
  lemma NotUncacheable(directive: string)
    requires |directive| >= 7 && EqualsIgnoringCase(directive[..7], "max-age")
    ensures !EqualsIgnoringCase(directive, "no-cache") && !EqualsIgnoringCase(directive, "no-store")
  {
    assert Lower(directive[..7][0]) == Lower("max-age"[0]) == 'm' && directive[..7][0] == directive[0];
    assert Lower("no-cache"[0]) == Lower("no-store"[0]) == 'n';
  }

  lemma TrimNothing(text: string, drop: char -> bool)
    requires text != [] && !drop(text[0]) && !drop(text[|text| - 1])
    ensures Trim(text, drop) == text
  {}

  /** Trimming removes exactly the surrounding characters to drop. */
  lemma {:induction false} TrimAround(left: string, text: string, right: string, drop: char -> bool)
    requires text != [] && !drop(text[0]) && !drop(text[|text| - 1])
    requires (forall k | 0 <= k < |left| :: drop(left[k])) && (forall k | 0 <= k < |right| :: drop(right[k]))
    ensures Trim(left + text + right, drop) == text
    decreases |left| + |right|
  {
    var whole := left + text + right;
    if left != [] {
      assert whole[0] == left[0] && whole[1..] == left[1..] + text + right;
      TrimAround(left[1..], text, right, drop);
    } else if right != [] {
      var n := |right| - 1;
      assert whole[|whole| - 1] == right[n] && whole[..|whole| - 1] == left + text + right[..n];
      assert whole[0] == text[0] && (left + text + right[..n])[0] == text[0];
      TrimAround(left, text, right[..n], drop);
    } else {
      assert whole == text;
    }
  }
}
