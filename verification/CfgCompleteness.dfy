/**
 How far the three-valued evaluator is complete. It forgets which atoms are the same, so it is exact
 for assignments to the occurrences of atoms, and for builds when no atom occurs twice.
 */
module CfgCompleteness {
  import opened Common
  import opened CfgPredicate

  function Atoms<A(==)>(p: Predicate<A>): set<A> {
    match p
    case Test => {}
    case Atom(atom) => {atom}
    case All(ps) => set k, a | 0 <= k < |ps| && a in Atoms(ps[k]) :: a
    case Any(ps) => set k, a | 0 <= k < |ps| && a in Atoms(ps[k]) :: a
    case Not(q) => Atoms(q)
  }

  ghost predicate ReadOnce<A>(p: Predicate<A>) {
    match p
    case Test => true
    case Atom(_) => true
    case All(ps) => ReadOnceList(ps)
    case Any(ps) => ReadOnceList(ps)
    case Not(q) => ReadOnce(q)
  }

  ghost predicate ReadOnceList<A>(ps: seq<Predicate<A>>) {
    && (forall k | 0 <= k < |ps| :: ReadOnce(ps[k]))
    && (forall i, j | 0 <= i < j < |ps| :: Atoms(ps[i]) !! Atoms(ps[j]))
  }

  /** A predicate looks only at its own atoms. */
  lemma {:induction false} HoldsLocally<A>(p: Predicate<A>, build: set<A>, other: set<A>, test: bool)
    requires forall a | a in Atoms(p) :: a in build <==> a in other
    ensures Holds(p, build, test) == Holds(p, other, test)
  {
    match p
    case Test =>
    case Atom(_) =>
    case Not(q) => HoldsLocally(q, build, other, test);
    case All(ps) =>
      forall k | 0 <= k < |ps| ensures Holds(ps[k], build, test) == Holds(ps[k], other, test) {
        assert forall a | a in Atoms(ps[k]) :: a in Atoms(p);
        HoldsLocally(ps[k], build, other, test);
      }
    case Any(ps) =>
      forall k | 0 <= k < |ps| ensures Holds(ps[k], build, test) == Holds(ps[k], other, test) {
        assert forall a | a in Atoms(ps[k]) :: a in Atoms(p);
        HoldsLocally(ps[k], build, other, test);
      }
  }

  /** Builds for the first n predicates that give each of them the value `want`, side by side. */
  lemma {:induction false} WitnessEach<A>(ps: seq<Predicate<A>>, n: nat, test: bool, want: bool) returns (build: set<A>)
    requires n <= |ps| && ReadOnceList(ps)
    requires forall k | 0 <= k < n :: Value(ps[k], test) != Some(!want)
    ensures forall a | a in build :: exists k :: 0 <= k < n && a in Atoms(ps[k])
    ensures forall k | 0 <= k < n :: Holds(ps[k], build, test) == want
    decreases ps, n
  {
    if n == 0 {
      build := {};
    } else {
      var rest := WitnessEach(ps, n - 1, test, want);
      var last := Witness(ps[n - 1], test, want);
      build := rest + last;
      forall k | 0 <= k < n ensures Holds(ps[k], build, test) == want {
        HoldsLocally(ps[k], build, if k < n - 1 then rest else last, test);
      }
    }
  }

  /** A value that is not ruled out is taken in some build. */
  lemma {:induction false} Witness<A>(p: Predicate<A>, test: bool, want: bool) returns (build: set<A>)
    requires ReadOnce(p) && Value(p, test) != Some(!want)
    ensures build <= Atoms(p)
    ensures Holds(p, build, test) == want
    decreases p
  {
    match p
    case Test => build := {};
    case Atom(atom) => build := if want then {atom} else {};
    case Not(q) => build := Witness(q, test, !want);
    case All(ps) => build := WitnessList(ps, test, true, want);
    case Any(ps) => build := WitnessList(ps, test, false, want);
  }

  /** all(..) takes `each` = true and any(..) takes `each` = false: that value needs every argument to have it. */
  lemma {:induction false} WitnessList<A>(ps: seq<Predicate<A>>, test: bool, each: bool, want: bool) returns (build: set<A>)
    requires ReadOnceList(ps)
    requires (if each then AllOf(Values(ps, test)) else AnyOf(Values(ps, test))) != Some(!want)
    ensures forall a | a in build :: exists k :: 0 <= k < |ps| && a in Atoms(ps[k])
    ensures want == each ==> forall k | 0 <= k < |ps| :: Holds(ps[k], build, test) == each
    ensures want != each ==> exists k | 0 <= k < |ps| :: Holds(ps[k], build, test) == want
    decreases ps, |ps| + 1
  {
    var vs := Values(ps, test);
    assert forall k | 0 <= k < |vs| :: vs[k] in vs;
    if want == each {
      build := WitnessEach(ps, |ps|, test, want);
    } else {
      var k :| 0 <= k < |ps| && vs[k] != Some(each);
      build := Witness(ps[k], test, want);
    }
  }

  /** Without repeated atoms the value is definite exactly when every assignment agrees. */
  lemma ConstantIff<A>(p: Predicate<A>, test: bool, b: bool)
    requires ReadOnce(p)
    ensures Value(p, test) == Some(b) <==> forall build: set<A> :: Holds(p, build, test) == b
  {
    if Value(p, test) == Some(b) {
      forall build: set<A> ensures Holds(p, build, test) == b {
        ValueIsSound(p, build, test);
      }
    } else {
      var build := Witness(p, test, !b);
      assert Holds(p, build, test) == !b;
    }
  }

  // ----- every occurrence its own atom

  /** The predicate with each atom replaced by the path to its occurrence. */
  function Apart<A>(p: Predicate<A>, path: seq<nat>): Predicate<seq<nat>> {
    match p
    case Test => Test
    case Atom(_) => Atom(path)
    case All(ps) => All(ApartEach(ps, path))
    case Any(ps) => Any(ApartEach(ps, path))
    case Not(q) => Not(Apart(q, path))
  }

  function ApartEach<A>(ps: seq<Predicate<A>>, path: seq<nat>): (qs: seq<Predicate<seq<nat>>>)
    ensures |qs| == |ps|
    ensures forall k | 0 <= k < |ps| :: qs[k] == Apart(ps[k], path + [k])
  {
    seq(|ps|, k requires 0 <= k < |ps| => Apart(ps[k], path + [k]))
  }

  lemma {:induction false} ApartAtoms<A>(p: Predicate<A>, path: seq<nat>)
    ensures forall a | a in Atoms(Apart(p, path)) :: path <= a
  {
    match p
    case Test =>
    case Atom(_) =>
    case Not(q) => ApartAtoms(q, path);
    case All(ps) => ApartAtomsEach(ps, path);
    case Any(ps) => ApartAtomsEach(ps, path);
  }

  lemma {:induction false} ApartAtomsEach<A>(ps: seq<Predicate<A>>, path: seq<nat>)
    ensures forall k, a | 0 <= k < |ps| && a in Atoms(ApartEach(ps, path)[k]) :: path + [k] <= a && path <= a
  {
    forall k, a | 0 <= k < |ps| && a in Atoms(ApartEach(ps, path)[k]) ensures path + [k] <= a && path <= a {
      ApartAtoms(ps[k], path + [k]);
    }
  }

  /** A path leads into one argument only. */
  lemma PathsPart(path: seq<nat>, i: nat, j: nat, a: seq<nat>)
    requires path + [i] <= a && path + [j] <= a
    ensures i == j
  {
    assert (path + [i])[|path|] == a[|path|] == (path + [j])[|path|];
  }

  lemma {:induction false} ApartIsReadOnce<A>(p: Predicate<A>, path: seq<nat>)
    ensures ReadOnce(Apart(p, path))
  {
    match p
    case Test =>
    case Atom(_) =>
    case Not(q) => ApartIsReadOnce(q, path);
    case All(ps) => ApartListIsReadOnce(ps, path);
    case Any(ps) => ApartListIsReadOnce(ps, path);
  }

  lemma {:induction false} ApartListIsReadOnce<A>(ps: seq<Predicate<A>>, path: seq<nat>)
    ensures ReadOnceList(ApartEach(ps, path))
  {
    var qs := ApartEach(ps, path);
    forall k | 0 <= k < |qs| ensures ReadOnce(qs[k]) {
      ApartIsReadOnce(ps[k], path + [k]);
    }
    ApartAtomsEach(ps, path);
    forall i, j, a | 0 <= i < |qs| && 0 <= j < |qs| && a in Atoms(qs[i]) && a in Atoms(qs[j]) ensures i == j {
      PathsPart(path, i, j, a);
    }
  }

  /** The evaluator cannot tell a predicate from its copy with the atoms renamed apart. */
  lemma {:induction false} ApartKeepsValue<A>(p: Predicate<A>, path: seq<nat>, test: bool)
    ensures Value(Apart(p, path), test) == Value(p, test)
  {
    match p
    case Test =>
    case Atom(_) =>
    case Not(q) => ApartKeepsValue(q, path, test);
    case All(ps) => ApartKeepsValues(ps, path, test);
    case Any(ps) => ApartKeepsValues(ps, path, test);
  }

  lemma {:induction false} ApartKeepsValues<A>(ps: seq<Predicate<A>>, path: seq<nat>, test: bool)
    ensures Values(ApartEach(ps, path), test) == Values(ps, test)
  {
    forall k | 0 <= k < |ps| ensures Values(ApartEach(ps, path), test)[k] == Values(ps, test)[k] {
      ApartKeepsValue(ps[k], path + [k], test);
    }
  }

  /** The occurrences that a build sets. */
  function Occurrences<A(==)>(p: Predicate<A>, path: seq<nat>, build: set<A>): set<seq<nat>> {
    match p
    case Test => {}
    case Atom(atom) => if atom in build then {path} else {}
    case All(ps) => OccurrencesEach(ps, path, build)
    case Any(ps) => OccurrencesEach(ps, path, build)
    case Not(q) => Occurrences(q, path, build)
  }

  function OccurrencesEach<A(==)>(ps: seq<Predicate<A>>, path: seq<nat>, build: set<A>): set<seq<nat>> {
    set k, a | 0 <= k < |ps| && a in Occurrences(ps[k], path + [k], build) :: a
  }

  lemma {:induction false} OccurrencesAreAtoms<A>(p: Predicate<A>, path: seq<nat>, build: set<A>)
    ensures Occurrences(p, path, build) <= Atoms(Apart(p, path))
  {
    match p
    case Test =>
    case Atom(_) =>
    case Not(q) => OccurrencesAreAtoms(q, path, build);
    case All(ps) =>
      forall k | 0 <= k < |ps| ensures Occurrences(ps[k], path + [k], build) <= Atoms(ApartEach(ps, path)[k]) {
        OccurrencesAreAtoms(ps[k], path + [k], build);
      }
    case Any(ps) =>
      forall k | 0 <= k < |ps| ensures Occurrences(ps[k], path + [k], build) <= Atoms(ApartEach(ps, path)[k]) {
        OccurrencesAreAtoms(ps[k], path + [k], build);
      }
  }

  /** A build is one of the assignments to occurrences: the one that treats equal atoms alike. */
  lemma {:induction false} BuildsAreAssignments<A>(p: Predicate<A>, path: seq<nat>, build: set<A>, test: bool)
    ensures Holds(Apart(p, path), Occurrences(p, path, build), test) == Holds(p, build, test)
  {
    match p
    case Test =>
    case Atom(_) =>
    case Not(q) => BuildsAreAssignments(q, path, build, test);
    case All(ps) => BuildsAreAssignmentsEach(ps, path, build, test);
    case Any(ps) => BuildsAreAssignmentsEach(ps, path, build, test);
  }

  lemma {:induction false} BuildsAreAssignmentsEach<A>(ps: seq<Predicate<A>>, path: seq<nat>, build: set<A>, test: bool)
    ensures forall k | 0 <= k < |ps| ::
              Holds(ApartEach(ps, path)[k], OccurrencesEach(ps, path, build), test) == Holds(ps[k], build, test)
  {
    var qs, whole := ApartEach(ps, path), OccurrencesEach(ps, path, build);
    forall k | 0 <= k < |ps| ensures Holds(qs[k], whole, test) == Holds(ps[k], build, test) {
      BuildsAreAssignments(ps[k], path + [k], build, test);
      OccurrencesApart(ps, path, build, k);
      HoldsLocally(qs[k], whole, Occurrences(ps[k], path + [k], build), test);
    }
  }

  /** On the atoms of argument `k`, all the occurrences set are those of argument `k`. */
  lemma OccurrencesApart<A>(ps: seq<Predicate<A>>, path: seq<nat>, build: set<A>, k: nat)
    requires k < |ps|
    ensures forall a | a in Atoms(ApartEach(ps, path)[k]) ::
              a in OccurrencesEach(ps, path, build) <==> a in Occurrences(ps[k], path + [k], build)
  {
    ApartAtomsEach(ps, path);
    forall a | a in Atoms(ApartEach(ps, path)[k]) && a in OccurrencesEach(ps, path, build)
      ensures a in Occurrences(ps[k], path + [k], build)
    {
      var i :| 0 <= i < |ps| && a in Occurrences(ps[i], path + [i], build);
      OccurrencesAreAtoms(ps[i], path + [i], build);
      assert a in Atoms(ApartEach(ps, path)[i]);
      PathsPart(path, i, k, a);
    }
  }

  // ----- the evaluator on token lists

  /** An assignment to the occurrences of atoms in a predicate, by their paths. */
  type Assignment = set<seq<nat>>

  /**
   On every token list: the answer is definite if and only if every assignment to the occurrences of its
   atoms agrees.
   */
  lemma DefiniteIffConstant(tokens: seq<Node>, test: bool, b: bool)
    ensures CfgValue(tokens, test) == Some(b)
            <==> forall assignment: Assignment :: Holds(Apart(Parse(tokens), []), assignment, test) == b
  {
    hide *;
    var p := Parse(tokens);
    EvaluatesTheParse(tokens, test);
    ApartKeepsValue(p, [], test);
    ApartIsReadOnce(p, []);
    ConstantIff(Apart(p, []), test, b);
  }

  /** When no atom is repeated, the answer is definite if and only if every build agrees. */
  lemma DefiniteIffAllBuildsAgree(tokens: seq<Node>, test: bool, b: bool)
    requires ReadOnce(Parse(tokens))
    ensures CfgValue(tokens, test) == Some(b)
            <==> forall build: Build :: Holds(Parse(tokens), build, test) == b
  {
    hide *;
    EvaluatesTheParse(tokens, test);
    ConstantIff(Parse(tokens), test, b);
  }

  /** A predicate that every build decides alike is left unknown exactly when some assignment disagrees. */
  lemma MissedExactlyWhen(tokens: seq<Node>, test: bool, b: bool)
    requires forall build: Build :: Holds(Parse(tokens), build, test) == b
    ensures CfgValue(tokens, test) == None
            <==> exists assignment: Assignment :: Holds(Apart(Parse(tokens), []), assignment, test) != b
  {
    hide *;
    DefiniteIffConstant(tokens, test, b);
    if CfgValue(tokens, test).Some? {
      CfgValueIsSound(tokens, test, {});
      assert CfgValue(tokens, test) == Some(b);
    }
  }

  /**
   Any cfg attribute is classed as test-only if and only if it is disabled under every assignment to the
   occurrences of its atoms outside tests and enabled under some assignment in tests.
   */
  lemma TestOnlyIff(attribute: seq<Node>)
    requires IsCfg(WithoutComments(attribute))
    ensures var p := Apart(Parse(Inner(WithoutComments(attribute)[1].children)), []);
            TestAttribute(Some(attribute)) <==>
              && (forall assignment: Assignment :: !Holds(p, assignment, false))
              && (exists assignment: Assignment :: Holds(p, assignment, true))
  {
    var tokens := Inner(WithoutComments(attribute)[1].children);
    hide CfgValue, Holds, Parse, WithoutComments, Inner, Apart;
    DefiniteIffConstant(tokens, false, false);
    DefiniteIffConstant(tokens, true, false);
  }

  /** Without repeated atoms: test-only exactly when disabled outside tests and enabled in some test build. */
  lemma TestOnlyIffDisabled(attribute: seq<Node>)
    requires IsCfg(WithoutComments(attribute))
    requires ReadOnce(Parse(Inner(WithoutComments(attribute)[1].children)))
    ensures var p := Parse(Inner(WithoutComments(attribute)[1].children));
            TestAttribute(Some(attribute)) <==>
              && (forall build: Build :: !Holds(p, build, false))
              && (exists build: Build :: Holds(p, build, true))
  {
    var tokens := Inner(WithoutComments(attribute)[1].children);
    hide CfgValue, Holds, Parse, WithoutComments, Inner, ReadOnce;
    DefiniteIffAllBuildsAgree(tokens, false, false);
    DefiniteIffAllBuildsAgree(tokens, true, false);
  }
}
