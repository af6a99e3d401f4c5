/** Which attributes the file-size check takes for test-only, as they are written, comments included. */
module CfgAttributes {
  import opened Common
  import opened CfgPredicate
  import opened CfgCompleteness
  import opened CfgSyntax

  ghost predicate Comments(nodes: seq<Node>) {
    forall k | 0 <= k < |nodes| :: nodes[k].kind == Comment
  }

  lemma {:induction false} CommentsVanish(nodes: seq<Node>)
    requires Comments(nodes)
    ensures WithoutComments(nodes) == []
  {
    if nodes != [] {
      CommentsVanish(nodes[..|nodes| - 1]);
    }
  }

  lemma {:induction false} WithoutCommentsConcat(left: seq<Node>, right: seq<Node>)
    ensures WithoutComments(left + right) == WithoutComments(left) + WithoutComments(right)
  {
    if right == [] {
      assert left + right == left;
    } else {
      var n := |right| - 1;
      assert (left + right)[..|left| + n] == left + right[..n];
      WithoutCommentsConcat(left, right[..n]);
    }
  }

  lemma OneKept(node: Node)
    ensures WithoutComments([node]) == if node.kind == Comment then [] else [node]
  {
    assert [node][..0] == [];
  }

  /** `word` with comments before and after it. */
  ghost predicate IsWordAmid(attribute: seq<Node>, front: seq<Node>, word: Node, back: seq<Node>) {
    attribute == front + [word] + back && Comments(front) && Comments(back) && word.kind != Comment
  }

  lemma WordIsKept(attribute: seq<Node>, front: seq<Node>, word: Node, back: seq<Node>)
    requires IsWordAmid(attribute, front, word, back)
    ensures WithoutComments(attribute) == [word]
  {
    CommentsVanish(front);
    CommentsVanish(back);
    OneKept(word);
    hide WithoutComments;
    WithoutCommentsConcat(front, [word]);
    WithoutCommentsConcat(front + [word], back);
  }

  /** What is left of a list when comments go is a single word only if that word stood amid comments. */
  lemma {:induction false} KeptWordStoodAmid(attribute: seq<Node>) returns (front: seq<Node>, back: seq<Node>)
    requires |WithoutComments(attribute)| == 1
    ensures IsWordAmid(attribute, front, WithoutComments(attribute)[0], back)
  {
    var n := |attribute| - 1;
    var last := attribute[n];
    assert attribute == attribute[..n] + [last];
    if last.kind == Comment {
      front, back := KeptWordStoodAmid(attribute[..n]);
      back := back + [last];
    } else {
      front, back := attribute[..n], [];
      NothingKept(front);
    }
  }

  lemma {:induction false} NothingKept(nodes: seq<Node>)
    requires WithoutComments(nodes) == []
    ensures Comments(nodes)
  {
    if nodes != [] {
      NothingKept(nodes[..|nodes| - 1]);
    }
  }

  /**
   An attribute that is not a cfg call is test-only if and only if, comments aside, it is the single word `test`
   or `bench`; an absent attribute never is.
   */
  lemma OtherAttributesExactlyWhen(attribute: seq<Node>)
    requires !IsCfg(WithoutComments(attribute))
    ensures !TestAttribute(None)
    ensures TestAttribute(Some(attribute)) <==>
              exists front, word, back ::
                IsWordAmid(attribute, front, word, back) && (word.text == "test" || word.text == "bench")
  {
    var kept := WithoutComments(attribute);
    if TestAttribute(Some(attribute)) {
      var front, back := KeptWordStoodAmid(attribute);
      assert IsWordAmid(attribute, front, kept[0], back);
    }
    if front, word, back :| IsWordAmid(attribute, front, word, back) && (word.text == "test" || word.text == "bench") {
      WordIsKept(attribute, front, word, back);
    }
  }

  /** A cfg call keeps its meaning with comments between and around its two parts. */
  lemma CommentedCfgIsCfg(front: seq<Node>, name: Node, between: seq<Node>, tree: Node, back: seq<Node>)
    requires Comments(front) && Comments(between) && Comments(back)
    requires name.kind == Identifier && name.text == "cfg" && tree.kind == TokenTree
    ensures var attribute := front + [name] + between + ([tree] + back);
            && WithoutComments(attribute) == [name, tree] && IsCfg(WithoutComments(attribute))
            && TestAttribute(Some(attribute)) == TestAttribute(Some([name, tree]))
  {
    WordIsKept(front + [name] + between, front, name, between);
    WordIsKept([tree] + back, [], tree, back);
    WithoutCommentsConcat(front + [name] + between, [tree] + back);
    assert [name] + [tree] == [name, tree];
    WordIsKept([name], [], name, []);
    WordIsKept([tree], [], tree, []);
    WithoutCommentsConcat([name], [tree]);
  }

  // ----- cfg attributes as written

  /** `cfg(p)` */
  function CfgOf(p: Predicate<seq<Node>>, trailing: bool): seq<Node> {
    [Node(Identifier, "cfg", []),
     Node(TokenTree, "", [Node(OtherKind, "(", [])] + Render(p, trailing) + [Node(OtherKind, ")", [])])]
  }

  lemma CfgOfParts(p: Predicate<seq<Node>>, trailing: bool)
    ensures var attribute := CfgOf(p, trailing);
            && WithoutComments(attribute) == attribute && IsCfg(attribute)
            && Inner(attribute[1].children) == Render(p, trailing)
  {
    hide Render;
    var attribute := CfgOf(p, trailing);
    OneKept(attribute[0]);
    OneKept(attribute[1]);
    WithoutCommentsConcat([attribute[0]], [attribute[1]]);
    assert [attribute[0]] + [attribute[1]] == attribute;
  }

  /**
   `cfg(p)`, for every predicate that can be written, is test-only if and only if p fails under every assignment to
   the occurrences of its atoms outside tests and holds under some assignment in tests.
   */
  lemma CfgIsTestOnlyExactlyWhen(p: Predicate<seq<Node>>, trailing: bool)
    requires Writable(p)
    ensures TestAttribute(Some(CfgOf(p, trailing))) <==>
              && (forall assignment: Assignment :: !Holds(Apart(p, []), assignment, false))
              && (exists assignment: Assignment :: Holds(Apart(p, []), assignment, true))
  {
    hide *;
    CfgOfParts(p, trailing);
    ParseRender(p, trailing);
    TestOnlyIff(CfgOf(p, trailing));
  }

  /** cfg(test) and cfg(all(test, x)) are test-only; cfg(x), cfg(not(test)) and cfg(any(test, x)) are not. */
  lemma OrdinaryCfgs(x: seq<Node>, trailing: bool)
    requires Writable(Atom(x))
    ensures TestAttribute(Some(CfgOf(Test, trailing)))
    ensures TestAttribute(Some(CfgOf(All([Test, Atom(x)]), trailing)))
    ensures !TestAttribute(Some(CfgOf(Atom(x), trailing)))
    ensures !TestAttribute(Some(CfgOf(Not(Test), trailing)))
    ensures !TestAttribute(Some(CfgOf(Any([Test, Atom(x)]), trailing)))
  {
    hide *;
    OrdinaryValues(x);
    OrdinaryAreWritable(x);
    IsTestOnly(Test, trailing, {});
    IsTestOnly(All([Test, Atom(x)]), trailing, {[1]});
    IsNotTestOnly(Atom(x), trailing, {[]});
    IsNotTestOnly(Not(Test), trailing, {});
    IsNotTestOnly(Any([Test, Atom(x)]), trailing, {[1]});
  }

  lemma IsTestOnly(p: Predicate<seq<Node>>, trailing: bool, example: Assignment)
    requires Writable(p) && Holds(Apart(p, []), example, true)
    requires forall assignment: Assignment :: !Holds(Apart(p, []), assignment, false)
    ensures TestAttribute(Some(CfgOf(p, trailing)))
  {
    hide *;
    CfgIsTestOnlyExactlyWhen(p, trailing);
  }

  lemma IsNotTestOnly(p: Predicate<seq<Node>>, trailing: bool, example: Assignment)
    requires Writable(p) && Holds(Apart(p, []), example, false)
    ensures !TestAttribute(Some(CfgOf(p, trailing)))
  {
    hide *;
    CfgIsTestOnlyExactlyWhen(p, trailing);
  }

  lemma OrdinaryAreWritable(x: seq<Node>)
    requires Writable(Atom(x))
    ensures Writable(Test) && Writable(Not(Test)) && Writable(All([Test, Atom(x)])) && Writable(Any([Test, Atom(x)]))
  {
    var both := [Test, Atom(x)];
    assert Writable(both[0]) && Writable(both[1]);
  }

  lemma OrdinaryValues(x: seq<Node>)
    ensures forall assignment: Assignment ::
              !Holds(Apart<seq<Node>>(Test, []), assignment, false) && !Holds(Apart(All([Test, Atom(x)]), []), assignment, false)
    ensures Holds(Apart<seq<Node>>(Test, []), {}, true) && Holds(Apart(All([Test, Atom(x)]), []), {[1]}, true)
    ensures Holds(Apart(Atom(x), []), {[]}, false) && Holds(Apart<seq<Node>>(Not(Test), []), {}, false)
    ensures Holds(Apart(Any([Test, Atom(x)]), []), {[1]}, false)
  {
    var both := [Test, Atom(x)];
    var apart := ApartEach(both, []);
    assert [] + [1] == [1];
    assert apart[0] == Apart(both[0], [] + [0]) == Test && apart[1] == Apart(both[1], [] + [1]) == Atom([1]);
    forall assignment: Assignment ensures !Holds(All(apart), assignment, false) {
      assert !Holds(apart[0], assignment, false);
    }
    assert Holds(All(apart), {[1]}, true);
    assert Holds(apart[1], {[1]}, false);
    assert Holds(Any(apart), {[1]}, false);
  }
}
