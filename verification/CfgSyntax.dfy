/** The evaluator's reading of a `cfg` predicate as it is written in Rust. */
module CfgSyntax {
  import opened Common
  import opened CfgPredicate
  import opened CfgCompleteness

  const COMMA := Node(Comma, ",", [])

  predicate Plain(nodes: seq<Node>) {
    forall k | 0 <= k < |nodes| :: !nodes[k].kind.Comma? && !nodes[k].kind.Comment?
  }

  function Join(groups: seq<seq<Node>>): seq<Node> {
    if groups == [] then []
    else if |groups| == 1 then groups[0]
    else Join(groups[..|groups| - 1]) + [COMMA] + groups[|groups| - 1]
  }

  function Call(name: string, arguments: seq<seq<Node>>, trailing: bool): seq<Node> {
    var inner := Join(arguments) + if trailing && arguments != [] then [COMMA] else [];
    [Node(Identifier, name, []),
     Node(TokenTree, "", [Node(OtherKind, "(", [])] + inner + [Node(OtherKind, ")", [])])]
  }

  /** The predicate as written in Rust, with or without trailing commas. */
  function Render(p: Predicate<seq<Node>>, trailing: bool): seq<Node> {
    match p
    case Test => [Node(Identifier, "test", [])]
    case Atom(tokens) => tokens
    case All(ps) => Call("all", RenderEach(ps, trailing), trailing)
    case Any(ps) => Call("any", RenderEach(ps, trailing), trailing)
    case Not(q) => Call("not", [Render(q, trailing)], trailing)
  }

  function RenderEach(ps: seq<Predicate<seq<Node>>>, trailing: bool): (r: seq<seq<Node>>)
    ensures |r| == |ps| && forall k | 0 <= k < |ps| :: r[k] == Render(ps[k], trailing)
  {
    seq(|ps|, k requires 0 <= k < |ps| => Render(ps[k], trailing))
  }

  /** Every atom is a nonempty token list that is not itself a predicate. */
  ghost predicate Writable(p: Predicate<seq<Node>>) {
    match p
    case Test => true
    case Atom(tokens) => tokens != [] && Plain(tokens) && Parse(tokens) == p
    case All(ps) => forall k | 0 <= k < |ps| :: Writable(ps[k])
    case Any(ps) => forall k | 0 <= k < |ps| :: Writable(ps[k])
    case Not(q) => Writable(q)
  }

  lemma {:induction false} PlainHasNoComments(nodes: seq<Node>)
    requires Plain(nodes)
    ensures WithoutComments(nodes) == nodes
  {
    if nodes != [] {
      PlainHasNoComments(nodes[..|nodes| - 1]);
    }
  }

  /** The groups with `more` added to the last of them. */
  function Extend(groups: seq<seq<Node>>, more: seq<Node>): (r: seq<seq<Node>>)
    requires groups != []
    ensures r != []
  {
    groups[..|groups| - 1] + [groups[|groups| - 1] + more]
  }

  lemma ExtendByToken(groups: seq<seq<Node>>, more: seq<Node>, node: Node)
    requires groups != [] && !node.kind.Comma? && !node.kind.Comment?
    ensures AddToken(Extend(groups, more), node) == Extend(groups, more + [node])
  {
    var last := groups[|groups| - 1];
    assert last + more + [node] == last + (more + [node]);
  }

  lemma ExtendByNothing(groups: seq<seq<Node>>)
    requires groups != []
    ensures Extend(groups, []) == groups
  {
    assert groups[|groups| - 1] + [] == groups[|groups| - 1];
  }

  /** Plain tokens extend the last group. */
  lemma {:induction false} GroupsAppend(nodes: seq<Node>, more: seq<Node>)
    requires Plain(more)
    ensures Groups(nodes + more) == Extend(Groups(nodes), more)
  {
    if more == [] {
      assert nodes + more == nodes;
      ExtendByNothing(Groups(nodes));
    } else {
      var n := |more| - 1;
      assert (nodes + more)[..|nodes| + n] == nodes + more[..n] && (nodes + more)[|nodes| + n] == more[n];
      assert more[..n] + [more[n]] == more;
      hide AddToken, Extend;
      GroupsAppend(nodes, more[..n]);
      ExtendByToken(Groups(nodes), more[..n], more[n]);
    }
  }

  lemma GroupsComma(nodes: seq<Node>)
    ensures Groups(nodes + [COMMA]) == Groups(nodes) + [[]]
  {}

  lemma {:induction false} GroupsOfJoin(groups: seq<seq<Node>>)
    requires groups != [] && forall k | 0 <= k < |groups| :: Plain(groups[k])
    ensures Groups(Join(groups)) == groups
    ensures Groups(Join(groups) + [COMMA]) == groups + [[]]
  {
    hide Plain, AddToken;
    var n := |groups| - 1;
    GroupsComma(Join(groups));
    if n == 0 {
      GroupsAppend([], groups[0]);
      assert [] + groups[0] == groups[0];
      assert Extend([[]], groups[0]) == groups;
    } else {
      GroupsOfJoin(groups[..n]);
      hide Groups;
      GroupsAppend(Join(groups[..n]) + [COMMA], groups[n]);
      assert [] + groups[n] == groups[n];
      assert Extend(groups[..n] + [[]], groups[n]) == groups;
    }
  }

  lemma CallArguments(name: string, arguments: seq<seq<Node>>, trailing: bool)
    requires forall k | 0 <= k < |arguments| :: arguments[k] != [] && Plain(arguments[k])
    ensures WithoutComments(Call(name, arguments, trailing)) == Call(name, arguments, trailing)
    ensures Arguments(Call(name, arguments, trailing)[1]) == arguments
  {
    PlainHasNoComments(Call(name, arguments, trailing));
    var inner := Join(arguments) + if trailing && arguments != [] then [COMMA] else [];
    assert Inner(Call(name, arguments, trailing)[1].children) == inner;
    assert Join(arguments) + [] == Join(arguments);
    if arguments != [] {
      GroupsOfJoin(arguments);
    }
  }

  lemma RenderIsPlain(p: Predicate<seq<Node>>, trailing: bool)
    requires Writable(p)
    ensures Render(p, trailing) != [] && Plain(Render(p, trailing))
  {}

  /** Parsing a written predicate gives it back, whatever its nesting and trailing commas. */
  lemma {:induction false} ParseRender(p: Predicate<seq<Node>>, trailing: bool)
    requires Writable(p)
    ensures Parse(Render(p, trailing)) == p
  {
    hide Plain, Join, Arguments, Groups;
    match p
    case Test => PlainHasNoComments(Render(p, trailing));
    case Atom(_) =>
    case All(ps) => ParseCall("all", ps, trailing);
    case Any(ps) => ParseCall("any", ps, trailing);
    case Not(q) =>
      RenderIsPlain(q, trailing);
      ParseRender(q, trailing);
      CallArguments("not", [Render(q, trailing)], trailing);
      ParseOfCall(Render(p, trailing), [q]);
  }

  lemma {:induction false} ParseCall(name: string, ps: seq<Predicate<seq<Node>>>, trailing: bool)
    requires name in {"all", "any"} && forall k | 0 <= k < |ps| :: Writable(ps[k])
    ensures var tokens := Call(name, RenderEach(ps, trailing), trailing);
            Parse(tokens) == if name == "all" then All(ps) else Any(ps)
    decreases ps, 0
  {
    var arguments := RenderEach(ps, trailing);
    forall k | 0 <= k < |ps|
      ensures arguments[k] != [] && Plain(arguments[k]) && Parse(arguments[k]) == ps[k]
    {
      RenderIsPlain(ps[k], trailing);
      ParseRender(ps[k], trailing);
    }
    CallArguments(name, arguments, trailing);
    hide Plain, Render, RenderEach, Writable, Join, Parse, WithoutComments, Arguments;
    ParseOfCall(Call(name, arguments, trailing), ps);
  }

  // ----- what written tokens are worth, one call at a time

  ghost predicate SomeIs(arguments: seq<seq<Node>>, test: bool, b: bool) {
    exists k | 0 <= k < |arguments| :: CfgValue(arguments[k], test) == Some(b)
  }

  ghost predicate EveryIs(arguments: seq<seq<Node>>, test: bool, b: bool) {
    forall k | 0 <= k < |arguments| :: CfgValue(arguments[k], test) == Some(b)
  }

  /**
   A call as written: all(..) is false if an argument is and true if all are, any(..) dually, not(..) takes exactly
   one argument, and any other call is unknown.
   */
  lemma CallIsWorth(name: string, arguments: seq<seq<Node>>, trailing: bool, test: bool)
    requires forall k | 0 <= k < |arguments| :: arguments[k] != [] && Plain(arguments[k])
    ensures CfgValue(Call(name, arguments, trailing), test)
            == if name == "all" then
                 (if SomeIs(arguments, test, false) then Some(false) else if EveryIs(arguments, test, true) then Some(true) else None)
               else if name == "any" then
                 (if SomeIs(arguments, test, true) then Some(true) else if EveryIs(arguments, test, false) then Some(false) else None)
               else if name == "not" && |arguments| == 1 && CfgValue(arguments[0], test).Some? then
                 Some(!CfgValue(arguments[0], test).value)
               else None
  {
    hide CfgValue, Arguments, WithoutComments, Plain, AllOf, AnyOf, SomeIs, EveryIs;
    var tokens := Call(name, arguments, trailing);
    CallArguments(name, arguments, trailing);
    assert tokens[0].text == name && tokens[1].kind == TokenTree && |tokens| == 2;
    hide Call;
    if name in {"all", "any", "not"} {
      var values := seq(|arguments|, k requires 0 <= k < |arguments| => CfgValue(arguments[k], test));
      ValueOfCall(tokens, test, values);
      FoldsMean(arguments, test, values);
    } else {
      ValueOfOther(tokens, test);
    }
  }

  lemma FoldsMean(arguments: seq<seq<Node>>, test: bool, values: seq<Option<bool>>)
    requires |values| == |arguments| && forall k | 0 <= k < |values| :: values[k] == CfgValue(arguments[k], test)
    ensures AllOf(values) == if SomeIs(arguments, test, false) then Some(false)
                             else if EveryIs(arguments, test, true) then Some(true) else None
    ensures AnyOf(values) == if SomeIs(arguments, test, true) then Some(true)
                             else if EveryIs(arguments, test, false) then Some(false) else None
  {
    hide CfgValue;
    assert forall k | 0 <= k < |values| :: values[k] in values;
  }

  /** any(x, not(x)), written out for any atom x, holds in every build and is answered unknown. */
  lemma RepeatedAtomsStayUnknown(x: seq<Node>, trailing: bool, build: Build, test: bool)
    requires Writable(Atom(x))
    ensures var tokens := Render(Any([Atom(x), Not(Atom(x))]), trailing);
            && !ReadOnce(Parse(tokens))
            && Holds(Parse(tokens), build, test)
            && CfgValue(tokens, test) == None
  {
    var ps := [Atom(x), Not(Atom(x))];
    assert Writable(Any(ps)) by {
      assert Writable(ps[0]) && Writable(ps[1]);
    }
    hide *;
    ParseRender(Any(ps), trailing);
    EvaluatesTheParse(Render(Any(ps), trailing), test);
    AtomOrNot(x, build, test);
  }

  lemma AtomOrNot(x: seq<Node>, build: Build, test: bool)
    ensures var p := Any([Atom(x), Not(Atom(x))]);
            !ReadOnce(p) && Holds(p, build, test) && Value(p, test) == None
  {
    var ps := [Atom(x), Not(Atom(x))];
    assert x in Atoms(ps[0]) && x in Atoms(ps[1]);
    assert Holds(ps[0], build, test) || Holds(ps[1], build, test);
    assert Values(ps, test) == [None, None];
    assert Values(ps, test)[0] in Values(ps, test);
  }
}
