/** Comments inside a cfg predicate, at any depth, never change its value. */
module CfgComments {
  import opened Common
  import opened CfgPredicate

  lemma InnerShrinks(nodes: seq<Node>)
    ensures Size(Inner(nodes)) <= Size(nodes)
  {
    if |nodes| >= 2 {
      SizeOfPrefix(nodes, |nodes| - 1);
      SizeOfSuffix(nodes[..|nodes| - 1], 1);
      assert nodes[..|nodes| - 1][1..] == Inner(nodes);
    }
  }

  /** The node without the comments between its delimiters, at any depth. */
  function Strip(node: Node): Node
    decreases NodeSize(node), 0
  {
    if |node.children| < 2 then node
    else
      InnerShrinks(node.children);
      node.(children := [node.children[0]] + StripAll(Inner(node.children)) + [node.children[|node.children| - 1]])
  }

  function StripAll(nodes: seq<Node>): seq<Node>
    decreases Size(nodes), 1
  {
    if nodes == [] then []
    else
      var n := |nodes| - 1;
      assert Size(nodes) == Size(nodes[..n]) + NodeSize(nodes[n]) && NodeSize(nodes[n]) > 0;
      StripAll(nodes[..n]) + if nodes[n].kind == Comment then [] else [Strip(nodes[n])]
  }

  lemma StripKeepsKind(node: Node)
    ensures Strip(node).kind == node.kind && Strip(node).text == node.text
    ensures Inner(Strip(node).children) == StripAll(Inner(node.children))
  {}

  lemma StripOneMore(nodes: seq<Node>, node: Node)
    ensures StripAll([]) == []
    ensures StripAll(nodes + [node]) == if node.kind == Comment then StripAll(nodes) else StripAll(nodes) + [Strip(node)]
  {
    assert (nodes + [node])[..|nodes|] == nodes;
    hide Strip;
  }

  lemma KeepOneMore(nodes: seq<Node>, node: Node)
    ensures WithoutComments([]) == []
    ensures WithoutComments(nodes + [node])
            == if node.kind == Comment then WithoutComments(nodes) else WithoutComments(nodes) + [node]
  {
    assert (nodes + [node])[..|nodes|] == nodes;
  }

  lemma GroupsOneMore(nodes: seq<Node>, node: Node)
    ensures Groups([]) == [[]]
    ensures Groups(nodes + [node]) == AddToken(Groups(nodes), node)
  {
    assert (nodes + [node])[..|nodes|] == nodes;
    hide AddToken;
  }

  lemma LastNode(nodes: seq<Node>)
    requires nodes != []
    ensures nodes == nodes[..|nodes| - 1] + [nodes[|nodes| - 1]]
  {}

  /** Token by token, the stripped ones. */
  ghost predicate AreStripped(stripped: seq<Node>, kept: seq<Node>) {
    |stripped| == |kept| && forall k | 0 <= k < |kept| :: stripped[k] == Strip(kept[k])
  }

  /** What is kept is kept, stripped, in the same order. */
  lemma {:induction false} StripKeepsTokens(nodes: seq<Node>)
    ensures WithoutComments(StripAll(nodes)) == StripAll(nodes)
    ensures AreStripped(StripAll(nodes), WithoutComments(nodes))
  {
    hide WithoutComments, StripAll, Strip;
    if nodes == [] {
      StripOneMore([], Node(Comma, "", []));
      KeepOneMore([], Node(Comma, "", []));
    } else {
      var n := |nodes| - 1;
      StripKeepsTokens(nodes[..n]);
      LastNode(nodes);
      StripKeepsKind(nodes[n]);
      StripOneMore(nodes[..n], nodes[n]);
      KeepOneMore(nodes[..n], nodes[n]);
      KeepOneMore(StripAll(nodes[..n]), Strip(nodes[n]));
    }
  }

  /** Group by group, the stripped ones; no group loses a token. */
  ghost predicate AreStrippedGroups(stripped: seq<seq<Node>>, groups: seq<seq<Node>>) {
    && |stripped| == |groups|
    && forall k | 0 <= k < |groups| :: stripped[k] == StripAll(groups[k]) && |stripped[k]| == |groups[k]|
  }

  lemma StripOneMoreGrouped(stripped: seq<seq<Node>>, groups: seq<seq<Node>>, node: Node)
    requires groups != [] && stripped != [] && AreStrippedGroups(stripped, groups)
    ensures if node.kind == Comment then AreStrippedGroups(stripped, AddToken(groups, node))
            else AreStrippedGroups(AddToken(stripped, Strip(node)), AddToken(groups, node))
  {
    StripKeepsKind(node);
    hide Strip, StripAll;
    var n := |groups| - 1;
    if node.kind == Comma {
      StripOneMore([], node);
      hide AreStrippedGroups;
      GroupsAgree(stripped, groups, [], []);
    } else if node.kind != Comment {
      StripOneMore(groups[n], node);
      var last, more := stripped[n] + [Strip(node)], groups[n] + [node];
      assert |last| == |more| && last == StripAll(more);
      FrontAgrees(stripped, groups);
      hide AreStrippedGroups;
      GroupsAgree(stripped[..n], groups[..n], last, more);
      assert stripped[n := last] == stripped[..n] + [last] && groups[n := more] == groups[..n] + [more];
    }
  }

  lemma FrontAgrees(stripped: seq<seq<Node>>, groups: seq<seq<Node>>)
    requires groups != [] && AreStrippedGroups(stripped, groups)
    ensures AreStrippedGroups(stripped[..|groups| - 1], groups[..|groups| - 1])
  {
    hide StripAll;
  }

  lemma GroupsAgree(stripped: seq<seq<Node>>, groups: seq<seq<Node>>, last: seq<Node>, more: seq<Node>)
    requires AreStrippedGroups(stripped, groups) && last == StripAll(more) && |last| == |more|
    ensures AreStrippedGroups(stripped + [last], groups + [more])
  {
    hide StripAll;
  }

  lemma {:induction false} StripKeepsGroups(nodes: seq<Node>)
    ensures AreStrippedGroups(Groups(StripAll(nodes)), Groups(nodes))
  {
    hide Strip, StripAll, Groups, AddToken;
    if nodes == [] {
      StripOneMore([], Node(Comma, "", []));
      GroupsOneMore([], Node(Comma, "", []));
    } else {
      var n := |nodes| - 1;
      StripKeepsGroups(nodes[..n]);
      LastNode(nodes);
      StripOneMore(nodes[..n], nodes[n]);
      GroupsOneMore(nodes[..n], nodes[n]);
      GroupsOneMore(StripAll(nodes[..n]), Strip(nodes[n]));
      hide AreStrippedGroups;
      StripOneMoreGrouped(Groups(StripAll(nodes[..n])), Groups(nodes[..n]), nodes[n]);
    }
  }

  lemma StripKeepsArguments(tree: Node)
    ensures var arguments, stripped := Arguments(tree), Arguments(Strip(tree));
            |stripped| == |arguments| && forall k | 0 <= k < |arguments| :: stripped[k] == StripAll(arguments[k])
  {
    StripKeepsKind(tree);
    StripKeepsGroups(Inner(tree.children));
    hide Strip, StripAll, Groups, Inner;
  }

  /** Comments never matter: a predicate is worth what it is worth with every comment inside it removed. */
  lemma {:induction false} CommentsDoNotMatter(tokens: seq<Node>, test: bool)
    ensures CfgValue(StripAll(tokens), test) == CfgValue(tokens, test)
    decreases Size(tokens)
  {
    hide CfgValue, WithoutComments, Arguments, Strip, StripAll, Size, AllOf, AnyOf;
    var kept, stripped := WithoutComments(tokens), StripAll(tokens);
    StripKeepsTokens(tokens);
    if kept != [] {
      StripKeepsKind(kept[0]);
      StripKeepsKind(kept[|kept| - 1]);
    }
    if IsCall(kept) {
      var groups, others := Arguments(kept[1]), Arguments(Strip(kept[1]));
      StripKeepsArguments(kept[1]);
      forall k | 0 <= k < |groups| ensures CfgValue(others[k], test) == CfgValue(groups[k], test) {
        ArgumentsShrink(tokens, k);
        CommentsDoNotMatter(groups[k], test);
      }
      var values := seq(|groups|, k requires 0 <= k < |groups| => CfgValue(groups[k], test));
      ValueOfCall(tokens, test, values);
      ValueOfCall(stripped, test, values);
    } else {
      ValueOfOther(tokens, test);
      ValueOfOther(stripped, test);
    }
  }
}
