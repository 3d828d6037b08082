/**
 The test helper `textContentMatcher`: a matcher that accepts the deepest
 elements whose text content satisfies a string or pattern, even when that
 text is split across several child elements. An element matches when its
 own text content satisfies the check and none of its element children's
 does.
 */
module TextMatcher {
  import opened Options
  import opened Strings

  /** A DOM node: a text node, or an element with its child nodes in order. */
  datatype Node = Text(data: string) | Element(tag: string, childNodes: seq<Node>)

  /** What the matcher is built from: a string, compared for equality, or a
      regular expression, standing here as the predicate its `test` computes. */
  datatype TextMatch = Exact(s: string) | Pattern(test: string -> bool)

  /** `textContent`: a text node's data, or the concatenation of the text
      content of all of an element's child nodes. */
  function TextContent(n: Node): string
    decreases n
  {
    match n
    case Text(d) => d
    case Element(_, cs) => Concat(seq(|cs|, i requires 0 <= i < |cs| => TextContent(cs[i])))
  }

  /** `children`: the child nodes that are elements, in order. */
  function ElementsOf(cs: seq<Node>): (r: seq<Node>)
    ensures forall c :: c in r <==> c in cs && c.Element?
  {
    if cs == [] then []
    else (if cs[0].Element? then [cs[0]] else []) + ElementsOf(cs[1..])
  }

  function ElementChildren(n: Node): (r: seq<Node>)
    ensures forall c :: c in r <==> n.Element? && c in n.childNodes && c.Element?
  {
    if n.Element? then ElementsOf(n.childNodes) else []
  }

  /** `hasText`: equality of the text content with the string, or the
      pattern's verdict on the text content. An element's text content is
      never null, so the fallback to "" has nothing to replace. */
  predicate HasText(tm: TextMatch, n: Node) {
    match tm
    case Exact(s) => TextContent(n) == s
    case Pattern(test) => test(TextContent(n))
  }

  /** `Array.prototype.every(child => !hasText(child))`, one child at a time. */
  function NoneHasText(tm: TextMatch, cs: seq<Node>): (r: bool)
    ensures r <==> forall i :: 0 <= i < |cs| ==> !HasText(tm, cs[i])
  {
    if cs == [] then true
    else !HasText(tm, cs[0]) && NoneHasText(tm, cs[1..])
  }

  /** The matcher applied to a candidate element, or to null. */
  function Matches(tm: TextMatch, node: Option<Node>): (r: bool)
    requires node.Some? ==> node.value.Element?
    ensures node.None? ==> !r
    ensures node.Some? && !HasText(tm, node.value) ==> !r
    ensures node.Some? && HasText(tm, node.value) ==>
      (r <==> forall c :: c in ElementChildren(node.value) ==> !HasText(tm, c))
  {
    if node.None? || !HasText(tm, node.value) then false
    else NoneHasText(tm, ElementChildren(node.value))
  }

  /** An element without element children matches whenever its text does. */
  lemma LeafMatchesOnText(tm: TextMatch, n: Node)
    requires n.Element? && ElementChildren(n) == []
    ensures Matches(tm, Some(n)) <==> HasText(tm, n)
  {
  }

  /** A matching element has no matching element child: the match is the
      deepest along its branch. */
  lemma MatchIsDeepest(tm: TextMatch, n: Node)
    requires n.Element? && Matches(tm, Some(n))
    ensures forall c :: c in ElementChildren(n) ==> !Matches(tm, Some(c))
  {
  }

  /** `d` is `n` or an element reached from `n` through element children. */
  predicate ElementDescendant(d: Node, n: Node)
    decreases n
  {
    || d == n
    || (n.Element? && exists i :: (0 <= i < |n.childNodes|
          && n.childNodes[i].Element? && ElementDescendant(d, n.childNodes[i])))
  }

  /** Whenever an element's text satisfies the check, the matcher accepts
      some element at or below it: the text is found however it is split. */
  lemma {:induction false} DeepestMatchExists(tm: TextMatch, n: Node)
    requires n.Element? && HasText(tm, n)
    ensures exists d :: ElementDescendant(d, n) && d.Element? && Matches(tm, Some(d))
    decreases n
  {
    if !Matches(tm, Some(n)) {
      var c :| c in ElementChildren(n) && HasText(tm, c);
      var i :| 0 <= i < |n.childNodes| && n.childNodes[i] == c;
      DeepestMatchExists(tm, c);
      var d :| ElementDescendant(d, c) && d.Element? && Matches(tm, Some(d));
      assert ElementDescendant(d, n);
    } else {
      assert ElementDescendant(n, n);
    }
  }

  /** The helper's own example: "Hello World" split over two spans is
      matched at the enclosing div, and at neither span. */
  lemma HelloWorldExample()
    ensures Matches(Exact("Hello World"),
      Some(Element("div", [Element("span", [Text("Hello")]), Element("span", [Text(" World")])])))
    ensures !Matches(Exact("Hello World"), Some(Element("span", [Text("Hello")])))
    ensures !Matches(Exact("Hello World"), Some(Element("span", [Text(" World")])))
  {
    var a, b := Element("span", [Text("Hello")]), Element("span", [Text(" World")]);
    var div := Element("div", [a, b]);
    assert TextContent(a) == "Hello" by {
      assert seq(1, i requires 0 <= i < 1 => TextContent(a.childNodes[i])) == ["Hello"];
      assert Concat(["Hello"]) == "Hello" + Concat([]);
    }
    assert TextContent(b) == " World" by {
      assert seq(1, i requires 0 <= i < 1 => TextContent(b.childNodes[i])) == [" World"];
      assert Concat([" World"]) == " World" + Concat([]);
    }
    assert TextContent(div) == "Hello World" by {
      assert seq(2, i requires 0 <= i < 2 => TextContent(div.childNodes[i])) == ["Hello", " World"];
      assert Concat(["Hello", " World"]) == "Hello" + Concat([" World"]);
      assert Concat([" World"]) == " World" + Concat([]);
    }
  }
}
