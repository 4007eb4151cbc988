/**
 * The parsed syntax tree the extractor walks. The parser itself is not part
 * of this model: a tree is given as a value whose nodes carry a kind tag,
 * whether the node is named, the source text it spans (already decoded), its
 * children in source order, and, for `pair` nodes, which child is the
 * `key` field and which the `value` field.
 */
module Syntax {
  import opened Wrappers

  datatype Node = Node(
    kind: string,
    named: bool,
    text: string,
    children: seq<Node>,
    keyField: Option<nat>,
    valueField: Option<nat>)

  /** `node.child_by_field_name(...)`: the child a field designates, if any. */
  function FieldChild(n: Node, field: Option<nat>): (r: Option<Node>)
    ensures r.Some? ==> r.value in n.children
    ensures r.None? <==> field.None? || field.value >= |n.children|
  {
    if field.Some? && field.value < |n.children| then Some(n.children[field.value]) else None
  }

  function Key(n: Node): Option<Node>
  {
    FieldChild(n, n.keyField)
  }

  function Value(n: Node): Option<Node>
  {
    FieldChild(n, n.valueField)
  }

  /** `node.named_children`: the named children, in order. */
  function NamedChildren(n: Node): (r: seq<Node>)
  {
    NamedOnly(n.children)
  }

  function NamedOnly(s: seq<Node>): (r: seq<Node>)
    ensures forall c :: c in r ==> c.named && c in s
    ensures forall c :: c in s && c.named ==> c in r
  {
    if s == [] then []
    else NamedOnly(s[..|s| - 1]) + (if s[|s| - 1].named then [s[|s| - 1]] else [])
  }

  predicate IsString(n: Node) { n.kind == "string" }
  predicate IsArray(n: Node) { n.kind == "array" }
  predicate IsObject(n: Node) { n.kind == "object" }
  predicate IsPair(n: Node) { n.kind == "pair" }

  /**
   * The order in which a last-in-first-out walk visits a tree: a node, then
   * the walk of its children with the last child taken first.
   */
  function Preorder(n: Node): seq<Node>
    decreases n
  {
    [n] + PreorderStack(n.children)
  }

  /** The order in which the walk visits everything still on a stack whose top is the last element. */
  function PreorderStack(stack: seq<Node>): seq<Node>
    decreases stack
  {
    if stack == [] then []
    else Preorder(stack[|stack| - 1]) + PreorderStack(stack[..|stack| - 1])
  }

  /** The number of nodes in a tree. */
  function Size(n: Node): nat
    decreases n
  {
    1 + SizeAll(n.children)
  }

  function SizeAll(s: seq<Node>): nat
    decreases s
  {
    if s == [] then 0 else SizeAll(s[..|s| - 1]) + Size(s[|s| - 1])
  }

  /** `x` is the node `n` or lies somewhere below it. */
  ghost predicate InTree(x: Node, n: Node)
    decreases n
  {
    x == n || exists i :: 0 <= i < |n.children| && InTree(x, n.children[i])
  }

  ghost predicate InForest(x: Node, s: seq<Node>)
  {
    exists i :: 0 <= i < |s| && InTree(x, s[i])
  }

  /** Pushing more nodes puts their walk ahead of the walk of what was already stacked. */
  lemma {:induction false} PreorderStackAppend(a: seq<Node>, b: seq<Node>)
    ensures PreorderStack(a + b) == PreorderStack(b) + PreorderStack(a)
    decreases |b|
  {
    if b == [] {
      assert a + b == a;
    } else {
      var ab := a + b;
      assert ab[..|ab| - 1] == a + b[..|b| - 1];
      assert ab[|ab| - 1] == b[|b| - 1];
      PreorderStackAppend(a, b[..|b| - 1]);
    }
  }

  /** Popping the top node and pushing its children leaves the rest of the walk unchanged. */
  lemma PreorderStackPop(rest: seq<Node>, top: Node)
    ensures PreorderStack(rest + [top]) == [top] + PreorderStack(rest + top.children)
  {
    var stack := rest + [top];
    assert stack[..|stack| - 1] == rest;
    var kids, others := PreorderStack(top.children), PreorderStack(rest);
    assert PreorderStack(stack) == [top] + (kids + others) by {
      assert PreorderStack(stack) == ([top] + kids) + others;
    }
    PreorderStackAppend(rest, top.children);
  }

  /** The walk visits one position per node of the tree: no node twice, none left out. */
  lemma {:induction false} PreorderLength(n: Node)
    ensures |Preorder(n)| == Size(n)
    decreases n, 1
  {
    PreorderStackLength(n.children);
  }

  lemma {:induction false} PreorderStackLength(s: seq<Node>)
    ensures |PreorderStack(s)| == SizeAll(s)
    decreases s, 0
  {
    if s != [] {
      PreorderLength(s[|s| - 1]);
      PreorderStackLength(s[..|s| - 1]);
    }
  }

  /** Every node of the tree, nested objects included, is visited by the walk, and nothing else is. */
  lemma {:induction false} PreorderVisitsTree(n: Node, x: Node)
    ensures x in Preorder(n) <==> InTree(x, n)
    decreases n, 1
  {
    PreorderStackVisitsForest(n.children, x);
  }

  lemma {:induction false} PreorderStackVisitsForest(s: seq<Node>, x: Node)
    ensures x in PreorderStack(s) <==> InForest(x, s)
    decreases s, 0
  {
    if s != [] {
      var init, last := s[..|s| - 1], s[|s| - 1];
      PreorderVisitsTree(last, x);
      PreorderStackVisitsForest(init, x);
      if InForest(x, s) {
        var i :| 0 <= i < |s| && InTree(x, s[i]);
        if i < |s| - 1 { assert InTree(x, init[i]); }
      }
      if InForest(x, init) {
        var i :| 0 <= i < |init| && InTree(x, init[i]);
        assert InTree(x, s[i]);
      }
    }
  }
}
