/**
 The file-size check decides whether a Rust attribute is test-only without building anything: it
 evaluates a `cfg` predicate knowing only whether `test` is set. Here is that three-valued
 evaluator on token trees, and the Boolean meaning it is measured against.
 */
module CfgPredicate {
  import opened Common

  datatype Kind = Identifier | TokenTree | Comma | Comment | OtherKind

  /** A syntax node: its kind, its text, and the tokens inside it (delimiters included). */
  datatype Node = Node(kind: Kind, text: string, children: seq<Node>)

  // ----- the token lists of an argument list

  function WithoutComments(nodes: seq<Node>): seq<Node> {
    if nodes == [] then []
    else
      var n := |nodes| - 1;
      WithoutComments(nodes[..n]) + if nodes[n].kind.Comment? then [] else [nodes[n]]
  }

  /** What is between the delimiters. */
  function Inner(nodes: seq<Node>): seq<Node> {
    if |nodes| < 2 then [] else nodes[1..|nodes| - 1]
  }

  function AddToken(groups: seq<seq<Node>>, node: Node): (r: seq<seq<Node>>)
    requires groups != []
    ensures r != []
  {
    var n := |groups| - 1;
    if node.kind.Comma? then groups + [[]]
    else if node.kind.Comment? then groups
    else groups[n := groups[n] + [node]]
  }

  /** The nodes separated at commas, comments dropped. */
  function Groups(nodes: seq<Node>): (r: seq<seq<Node>>)
    ensures r != []
  {
    if nodes == [] then [[]] else AddToken(Groups(nodes[..|nodes| - 1]), nodes[|nodes| - 1])
  }

  /** An empty last group is an empty argument list or a trailing comma. */
  function DropEmptyLast(groups: seq<seq<Node>>): seq<seq<Node>>
    requires groups != []
  {
    if groups[|groups| - 1] == [] then groups[..|groups| - 1] else groups
  }

  function Arguments(tree: Node): seq<seq<Node>> {
    DropEmptyLast(Groups(Inner(tree.children)))
  }

  /** The source's loop over the tokens of an argument list. */
  method SplitArguments(tree: Node) returns (groups: seq<seq<Node>>)
    ensures groups == Arguments(tree)
  {
    var nodes := Inner(tree.children);
    groups := [[]];
    for k := 0 to |nodes|
      invariant groups == Groups(nodes[..k])
    {
      assert nodes[..k + 1][..k] == nodes[..k];
      if nodes[k].kind.Comma? {
        groups := groups + [[]];
      } else if !nodes[k].kind.Comment? {
        groups := groups[|groups| - 1 := groups[|groups| - 1] + [nodes[k]]];
      }
    }
    assert nodes[..|nodes|] == nodes;
    if groups[|groups| - 1] == [] {
      groups := groups[..|groups| - 1];
    }
  }

  // ----- termination: argument lists are smaller than the tokens that hold them

  function NodeSize(node: Node): nat {
    1 + Size(node.children)
  }

  function Size(nodes: seq<Node>): nat {
    if nodes == [] then 0 else Size(nodes[..|nodes| - 1]) + NodeSize(nodes[|nodes| - 1])
  }

  lemma {:induction false} SizeOfPrefix(nodes: seq<Node>, k: nat)
    requires k <= |nodes|
    ensures Size(nodes[..k]) <= Size(nodes)
  {
    if k < |nodes| {
      assert nodes[..|nodes| - 1][..k] == nodes[..k];
      SizeOfPrefix(nodes[..|nodes| - 1], k);
    } else {
      assert nodes[..k] == nodes;
    }
  }

  lemma {:induction false} SizeOfSuffix(nodes: seq<Node>, k: nat)
    requires k <= |nodes|
    ensures Size(nodes[k..]) <= Size(nodes)
  {
    if k < |nodes| {
      var n := |nodes| - 1;
      assert nodes[k..][..n - k] == nodes[..n][k..];
      SizeOfSuffix(nodes[..n], k);
    }
  }

  lemma {:induction false} WithoutCommentsShrinks(nodes: seq<Node>)
    ensures Size(WithoutComments(nodes)) <= Size(nodes)
  {
    if nodes != [] {
      var n := |nodes| - 1;
      WithoutCommentsShrinks(nodes[..n]);
      var rest := WithoutComments(nodes[..n]);
      assert (rest + [nodes[n]])[..|rest|] == rest && rest + [] == rest;
    }
  }

  lemma {:induction false} GroupsShrink(nodes: seq<Node>, k: nat)
    requires k < |Groups(nodes)|
    ensures Size(Groups(nodes)[k]) <= Size(nodes)
  {
    if nodes != [] {
      var n := |nodes| - 1;
      var before := Groups(nodes[..n]);
      var group := before[|before| - 1];
      GroupsShrink(nodes[..n], |before| - 1);
      if k < |before| {
        GroupsShrink(nodes[..n], k);
      }
      assert (group + [nodes[n]])[..|group|] == group;
    }
  }

  lemma ArgumentsShrink(tokens: seq<Node>, k: nat)
    requires |WithoutComments(tokens)| == 2 && k < |Arguments(WithoutComments(tokens)[1])|
    ensures Size(Arguments(WithoutComments(tokens)[1])[k]) < Size(tokens)
  {
    var kept := WithoutComments(tokens);
    var tree := kept[1];
    GroupsShrink(Inner(tree.children), k);
    var inner := Inner(tree.children);
    if |tree.children| >= 2 {
      SizeOfPrefix(tree.children, |tree.children| - 1);
      SizeOfSuffix(tree.children[..|tree.children| - 1], 1);
      assert tree.children[..|tree.children| - 1][1..] == inner;
    }
    assert Size(kept) >= NodeSize(tree);
    WithoutCommentsShrinks(tokens);
  }

  // ----- the evaluator

  function AllOf(values: seq<Option<bool>>): Option<bool> {
    if Some(false) in values then Some(false)
    else if forall v | v in values :: v == Some(true) then Some(true)
    else None
  }

  function AnyOf(values: seq<Option<bool>>): Option<bool> {
    if Some(true) in values then Some(true)
    else if forall v | v in values :: v == Some(false) then Some(false)
    else None
  }

  /** Evaluate only `test`; every other configuration stays unknown. */
  function CfgValue(tokens: seq<Node>, test: bool): Option<bool>
    decreases Size(tokens)
  {
    var kept := WithoutComments(tokens);
    if |kept| == 1 && kept[0].kind.Identifier? then
      if kept[0].text == "test" then Some(test) else None
    else if |kept| != 2 || !kept[1].kind.TokenTree? then None
    else
      var groups := Arguments(kept[1]);
      var values := seq(|groups|, k requires 0 <= k < |groups| =>
        ArgumentsShrink(tokens, k); CfgValue(groups[k], test));
      if kept[0].text == "all" then AllOf(values)
      else if kept[0].text == "any" then AnyOf(values)
      else if kept[0].text == "not" && |values| == 1 && values[0].Some? then Some(!values[0].value)
      else None
  }

  // ----- the Boolean meaning

  datatype Predicate<A> =
    | Test
    | Atom(atom: A)
    | All(ps: seq<Predicate<A>>)
    | Any(ps: seq<Predicate<A>>)
    | Not(p: Predicate<A>)

  /** Any token list that is not `test`, all(..), any(..) or not(..) is one configuration atom. */
  function Parse(tokens: seq<Node>): Predicate<seq<Node>>
    decreases Size(tokens)
  {
    var kept := WithoutComments(tokens);
    if |kept| == 1 && kept[0].kind.Identifier? && kept[0].text == "test" then Test
    else if |kept| != 2 || !kept[1].kind.TokenTree? || kept[0].text !in {"all", "any", "not"} then Atom(kept)
    else
      var groups := Arguments(kept[1]);
      var ps := seq(|groups|, k requires 0 <= k < |groups| => ArgumentsShrink(tokens, k); Parse(groups[k]));
      if kept[0].text == "all" then All(ps)
      else if kept[0].text == "any" then Any(ps)
      else if |ps| == 1 then Not(ps[0])
      else Atom(kept)
  }

  /** A build sets some atoms, and sets `test` or not. */
  type Build = set<seq<Node>>

  /** The Boolean value when exactly the atoms in `build` are set. */
  predicate Holds<A(==)>(p: Predicate<A>, build: set<A>, test: bool) {
    match p
    case Test => test
    case Atom(atom) => atom in build
    case All(ps) => forall k | 0 <= k < |ps| :: Holds(ps[k], build, test)
    case Any(ps) => exists k | 0 <= k < |ps| :: Holds(ps[k], build, test)
    case Not(q) => !Holds(q, build, test)
  }

  /** The evaluator on the parsed predicate. */
  function Value<A>(p: Predicate<A>, test: bool): Option<bool> {
    match p
    case Test => Some(test)
    case Atom(_) => None
    case All(ps) => AllOf(Values(ps, test))
    case Any(ps) => AnyOf(Values(ps, test))
    case Not(q) => (match Value(q, test) case Some(b) => Some(!b) case None => None)
  }

  function Values<A>(ps: seq<Predicate<A>>, test: bool): (vs: seq<Option<bool>>)
    ensures |vs| == |ps|
    ensures forall k | 0 <= k < |ps| :: vs[k] == Value(ps[k], test)
  {
    seq(|ps|, k requires 0 <= k < |ps| => Value(ps[k], test))
  }

  /** The tokens are one of all(..), any(..) and not(..). */
  predicate IsCall(kept: seq<Node>) {
    |kept| == 2 && kept[1].kind.TokenTree? && kept[0].text in {"all", "any", "not"}
  }

  /** What a call is worth, given the values of its arguments. */
  function CallOf(name: string, values: seq<Option<bool>>): Option<bool> {
    if name == "all" then AllOf(values)
    else if name == "any" then AnyOf(values)
    else if |values| == 1 && values[0].Some? then Some(!values[0].value)
    else None
  }

  lemma ValueOfCall(tokens: seq<Node>, test: bool, values: seq<Option<bool>>)
    requires IsCall(WithoutComments(tokens)) && |values| == |Arguments(WithoutComments(tokens)[1])|
    requires forall k | 0 <= k < |values| :: values[k] == CfgValue(Arguments(WithoutComments(tokens)[1])[k], test)
    ensures CfgValue(tokens, test) == CallOf(WithoutComments(tokens)[0].text, values)
  {
    hide WithoutComments, Arguments, AllOf, AnyOf;
    var groups := Arguments(WithoutComments(tokens)[1]);
    assert values == seq(|groups|, k requires 0 <= k < |groups| => CfgValue(groups[k], test));
  }

  /** Tokens that are no call are `test` itself or unknown. */
  lemma ValueOfOther(tokens: seq<Node>, test: bool)
    requires !IsCall(WithoutComments(tokens))
    ensures var kept := WithoutComments(tokens);
            CfgValue(tokens, test)
            == if |kept| == 1 && kept[0].kind == Identifier && kept[0].text == "test" then Some(test) else None
  {
    hide WithoutComments, Arguments;
  }

  lemma ParseOfCall(tokens: seq<Node>, ps: seq<Predicate<seq<Node>>>)
    requires IsCall(WithoutComments(tokens)) && |ps| == |Arguments(WithoutComments(tokens)[1])|
    requires forall k | 0 <= k < |ps| :: ps[k] == Parse(Arguments(WithoutComments(tokens)[1])[k])
    ensures var kept := WithoutComments(tokens);
            Parse(tokens) == if kept[0].text == "all" then All(ps) else if kept[0].text == "any" then Any(ps)
                             else if |ps| == 1 then Not(ps[0]) else Atom(kept)
  {
    hide WithoutComments, Arguments;
    var groups := Arguments(WithoutComments(tokens)[1]);
    assert ps == seq(|groups|, k requires 0 <= k < |groups| => Parse(groups[k]));
  }

  lemma OtherTokens(tokens: seq<Node>, test: bool)
    requires !IsCall(WithoutComments(tokens))
    ensures CfgValue(tokens, test) == Value(Parse(tokens), test)
  {
    hide WithoutComments, Arguments;
  }

  /** Evaluating a token list is evaluating the predicate it parses to. */
  lemma {:induction false} EvaluatesTheParse(tokens: seq<Node>, test: bool)
    ensures CfgValue(tokens, test) == Value(Parse(tokens), test)
    decreases Size(tokens)
  {
    var kept := WithoutComments(tokens);
    hide CfgValue, Parse, WithoutComments, Arguments, Size, AllOf, AnyOf;
    if IsCall(kept) {
      var groups := Arguments(kept[1]);
      forall k | 0 <= k < |groups| ensures CfgValue(groups[k], test) == Value(Parse(groups[k]), test) {
        ArgumentsShrink(tokens, k);
        EvaluatesTheParse(groups[k], test);
      }
      var ps := seq(|groups|, k requires 0 <= k < |groups| => Parse(groups[k]));
      ParseOfCall(tokens, ps);
      ValueOfCall(tokens, test, Values(ps, test));
    } else {
      OtherTokens(tokens, test);
    }
  }

  /** A definite value is the Boolean value in every build. */
  lemma {:induction false} ValueIsSound<A>(p: Predicate<A>, build: set<A>, test: bool)
    requires Value(p, test).Some?
    ensures Holds(p, build, test) == Value(p, test).value
  {
    match p
    case Test =>
    case Not(q) => ValueIsSound(q, build, test);
    case All(ps) =>
      var vs := Values(ps, test);
      forall k | 0 <= k < |ps| && vs[k].Some? ensures Holds(ps[k], build, test) == vs[k].value {
        ValueIsSound(ps[k], build, test);
      }
      assert forall k | 0 <= k < |vs| :: vs[k] in vs;
    case Any(ps) =>
      var vs := Values(ps, test);
      forall k | 0 <= k < |ps| && vs[k].Some? ensures Holds(ps[k], build, test) == vs[k].value {
        ValueIsSound(ps[k], build, test);
      }
      assert forall k | 0 <= k < |vs| :: vs[k] in vs;
  }

  /** Soundness on every token list: a definite answer is the Boolean value in every build. */
  lemma CfgValueIsSound(tokens: seq<Node>, test: bool, build: Build)
    requires CfgValue(tokens, test).Some?
    ensures Holds(Parse(tokens), build, test) == CfgValue(tokens, test).value
  {
    EvaluatesTheParse(tokens, test);
    ValueIsSound(Parse(tokens), build, test);
  }

  // ----- test-only attributes

  /** The parts of an attribute, or nothing when the node holds no attribute. */
  predicate TestAttribute(attribute: Option<seq<Node>>) {
    if attribute.None? then false
    else
      var parts := WithoutComments(attribute.value);
      if |parts| == 1 && parts[0].text in {"test", "bench"} then true
      else if |parts| != 2 || parts[0].text != "cfg" || !parts[1].kind.TokenTree? then false
      else
        var tokens := Inner(parts[1].children);
        CfgValue(tokens, false) == Some(false) && CfgValue(tokens, true) != Some(false)
  }

  predicate IsCfg(parts: seq<Node>) {
    |parts| == 2 && parts[0].text == "cfg" && parts[1].kind.TokenTree?
  }

  /** A cfg attribute classed as test-only is disabled in every build that is not a test build. */
  lemma TestOnlyMeansDisabled(attribute: seq<Node>, build: Build)
    requires IsCfg(WithoutComments(attribute)) && TestAttribute(Some(attribute))
    ensures !Holds(Parse(Inner(WithoutComments(attribute)[1].children)), build, false)
  {
    CfgValueIsSound(Inner(WithoutComments(attribute)[1].children), false, build);
  }
}
