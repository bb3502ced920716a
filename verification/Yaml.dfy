// The bounded walk over a parsed YAML tree: inspectYAML of internal/control/load.go,
// which internal/logsource/load.go and internal/maturity/load.go repeat with
// their own limits on the number of nodes.
module Yaml {
  import opened Common

  datatype Kind = Document | Sequence | Mapping | Scalar | Alias
  datatype Node = Node(kind: Kind, anchor: string, tag: string, content: seq<Node>)

  datatype Rejection = TooManyNodes | TooDeep | AnchorOrAlias | CustomTag

  const MAX_DEPTH := 32
  const MAX_CONTROL_NODES := 10000
  const MAX_INVENTORY_NODES := 10000
  const MAX_ASSESSMENT_NODES := 20000

  function Size(node: Node): (n: nat)
    ensures n > 0
    decreases node, 1
  {
    1 + SizeAll(node.content)
  }

  function SizeAll(nodes: seq<Node>): nat
    decreases nodes, 0
  {
    if nodes == [] then 0 else SizeAll(nodes[..|nodes| - 1]) + Size(nodes[|nodes| - 1])
  }

  // The number of edges on the longest way down.
  function Height(node: Node): nat
    decreases node, 1
  {
    if node.content == [] then 0 else 1 + HeightAll(node.content)
  }

  function HeightAll(nodes: seq<Node>): nat
    decreases nodes, 0
  {
    if nodes == [] then 0
    else
      var rest, last := HeightAll(nodes[..|nodes| - 1]), Height(nodes[|nodes| - 1]);
      if last > rest then last else rest
  }

  predicate PlainNode(node: Node) {
    node.kind != Alias && node.anchor == "" && (node.tag == "" || "!!" <= node.tag)
  }

  // No alias, anchor or custom tag anywhere.
  predicate Plain(node: Node)
    decreases node
  {
    PlainNode(node) && forall i :: 0 <= i < |node.content| ==> Plain(node.content[i])
  }

  lemma {:induction false} PrefixFits(nodes: seq<Node>, i: nat)
    requires i < |nodes|
    ensures SizeAll(nodes[..i]) + Size(nodes[i]) == SizeAll(nodes[..i + 1]) <= SizeAll(nodes)
    ensures Height(nodes[i]) <= HeightAll(nodes)
    ensures HeightAll(nodes[..i + 1]) == (if Height(nodes[i]) > HeightAll(nodes[..i]) then Height(nodes[i])
            else HeightAll(nodes[..i]))
    decreases |nodes|
  {
    assert nodes[..i + 1][..i] == nodes[..i];
    if i == |nodes| - 1 {
      assert nodes[..i + 1] == nodes;
    } else {
      var n := |nodes| - 1;
      assert nodes[..n][..i] == nodes[..i] && nodes[..n][..i + 1] == nodes[..i + 1];
      PrefixFits(nodes[..n], i);
    }
  }

  lemma Unfolded(node: Node)
    ensures Size(node) == 1 + SizeAll(node.content) && SizeAll(node.content[..0]) == 0
    ensures Height(node) == (if node.content == [] then 0 else 1 + HeightAll(node.content))
    ensures HeightAll(node.content[..0]) == 0
  {
  }

  class Counter {
    var value: nat

    constructor ()
      ensures value == 0
    {
      value := 0;
    }
  }

  // Accepted exactly when the nodes counted so far and those of the tree are
  // within the limit, the tree is not too deep at this depth, and all of it is
  // plain. The shared counter has then grown by the size of the tree; otherwise
  // it stands at most one past the limit.
  method InspectYAML(node: Node, depth: nat, count: Counter, maxNodes: nat) returns (error: Option<Rejection>)
    requires count.value <= maxNodes
    modifies count
    ensures error == None <==>
              old(count.value) + Size(node) <= maxNodes && depth + Height(node) <= MAX_DEPTH
              && Plain(node)
    ensures error == None ==> count.value == old(count.value) + Size(node)
    ensures error != None ==> old(count.value) < count.value <= maxNodes + 1
    decreases node
  {
    hide Size, SizeAll, Height, HeightAll;
    Unfolded(node);
    count.value := count.value + 1;
    if count.value > maxNodes {
      return Some(TooManyNodes);
    }
    if depth > MAX_DEPTH {
      return Some(TooDeep);
    }
    if node.kind == Alias || node.anchor != "" {
      return Some(AnchorOrAlias);
    }
    if node.tag != "" && !("!!" <= node.tag) {
      return Some(CustomTag);
    }
    var nodes := node.content;
    for i := 0 to |nodes|
      invariant count.value == old(count.value) + 1 + SizeAll(nodes[..i]) <= maxNodes
      invariant i > 0 ==> depth + 1 + HeightAll(nodes[..i]) <= MAX_DEPTH
      invariant forall k :: 0 <= k < i ==> Plain(nodes[k])
    {
      PrefixFits(nodes, i);
      error := InspectYAML(nodes[i], depth + 1, count, maxNodes);
      if error != None {
        return;
      }
    }
    assert nodes[..|nodes|] == nodes;
    return None;
  }

  // The walk as the loaders start it.
  method LoadCheck(root: Node, maxNodes: nat) returns (error: Option<Rejection>, nodes: nat)
    ensures error == None <==> Size(root) <= maxNodes && Height(root) <= MAX_DEPTH && Plain(root)
    ensures error == None ==> nodes == Size(root)
    ensures error != None ==> 0 < nodes <= maxNodes + 1
  {
    var count := new Counter();
    error := InspectYAML(root, 0, count, maxNodes);
    nodes := count.value;
  }

  // ----- size, depth and plainness, node by node -----

  // The node that the child numbers lead to.
  function NodeAt(node: Node, path: seq<nat>): Option<Node>
    decreases |path|
  {
    if path == [] then Some(node)
    else if path[0] < |node.content| then NodeAt(node.content[path[0]], path[1..])
    else None
  }

  // Every node is plain: no alias, no anchor, and a tag that is absent or begins with
  // two exclamation marks.
  lemma {:induction false} PlainMeans(node: Node)
    ensures Plain(node) <==> AllPlain(node)
    decreases node
  {
    hide AllPlain, IsPlain;
    PlainHere(node);
    forall i | 0 <= i < |node.content| ensures Plain(node.content[i]) <==> AllPlain(node.content[i]) {
      PlainMeans(node.content[i]);
    }
    AllPlainBelow(node);
  }

  ghost predicate AllPlain(node: Node) {
    forall path: seq<nat> :: NodeAt(node, path).Some? ==> IsPlain(NodeAt(node, path).value)
  }

  lemma PlainHere(node: Node)
    ensures PlainNode(node) <==> IsPlain(node)
  {
  }

  lemma AllPlainBelow(node: Node)
    ensures AllPlain(node) <==> IsPlain(node) && forall i :: 0 <= i < |node.content| ==> AllPlain(node.content[i])
  {
    hide IsPlain;
    if AllPlain(node) {
      assert NodeAt(node, []) == Some(node);
      forall i: nat | i < |node.content| ensures AllPlain(node.content[i]) {
        forall path: seq<nat> | NodeAt(node.content[i], path).Some?
          ensures IsPlain(NodeAt(node.content[i], path).value)
        {
          AtChild(node, i, path);
          assert IsPlain(NodeAt(node, [i] + path).value);
        }
      }
    }
    if IsPlain(node) && forall i :: 0 <= i < |node.content| ==> AllPlain(node.content[i]) {
      forall path: seq<nat> | NodeAt(node, path).Some? ensures IsPlain(NodeAt(node, path).value) {
        if path != [] { assert AllPlain(node.content[path[0]]); }
      }
    }
  }

  lemma AtChild(node: Node, i: nat, path: seq<nat>)
    requires i < |node.content|
    ensures NodeAt(node, [i] + path) == NodeAt(node.content[i], path)
  {
    assert ([i] + path)[1..] == path;
  }

  predicate IsPlain(node: Node) {
    && !node.kind.Alias? && |node.anchor| == 0
    && (|node.tag| == 0 || (|node.tag| >= 2 && node.tag[0] == '!' && node.tag[1] == '!'))
  }

  lemma {:induction false} HighestChild(nodes: seq<Node>, n: nat)
    ensures HeightAll(nodes) <= n <==> forall i :: 0 <= i < |nodes| ==> Height(nodes[i]) <= n
    decreases |nodes|
  {
    if nodes != [] {
      var m := |nodes| - 1;
      HighestChild(nodes[..m], n);
      assert forall i :: 0 <= i < m ==> nodes[..m][i] == nodes[i];
    }
  }

  // A tree is no deeper than n exactly if no path to a node is longer.
  lemma {:induction false} HeightMeans(node: Node, n: nat)
    ensures Height(node) <= n <==> AllWithin(node, n)
    decreases node
  {
    hide AllWithin;
    if node.content == [] {
      AloneWithin(node, n);
    } else if n == 0 {
      ChildBeyond(node);
    } else {
      HighestChild(node.content, n - 1);
      forall i | 0 <= i < |node.content|
        ensures Height(node.content[i]) <= n - 1 <==> AllWithin(node.content[i], n - 1)
      {
        HeightMeans(node.content[i], n - 1);
      }
      ChildrenWithin(node, n);
    }
  }

  ghost predicate AllWithin(node: Node, n: nat) {
    forall path: seq<nat> :: NodeAt(node, path).Some? ==> |path| <= n
  }

  lemma AloneWithin(node: Node, n: nat)
    requires node.content == []
    ensures AllWithin(node, n)
  {
  }

  lemma ChildBeyond(node: Node)
    requires node.content != []
    ensures !AllWithin(node, 0)
  {
    AtChild(node, 0, []);
    assert NodeAt(node, [0] + []).Some?;
  }

  lemma ChildrenWithin(node: Node, n: nat)
    requires n > 0
    ensures AllWithin(node, n) <==> forall i :: 0 <= i < |node.content| ==> AllWithin(node.content[i], n - 1)
  {
    if AllWithin(node, n) {
      forall i: nat | i < |node.content| ensures AllWithin(node.content[i], n - 1) {
        forall path: seq<nat> | NodeAt(node.content[i], path).Some? ensures |path| <= n - 1 {
          AtChild(node, i, path);
          assert NodeAt(node, [i] + path).Some?;
        }
      }
    }
    if forall i :: 0 <= i < |node.content| ==> AllWithin(node.content[i], n - 1) {
      forall path: seq<nat> | NodeAt(node, path).Some? ensures |path| <= n {
        if path != [] {
          assert AllWithin(node.content[path[0]], n - 1);
          assert NodeAt(node.content[path[0]], path[1..]).Some?;
        }
      }
    }
  }

  // The size is one for the node and the sizes of its children.
  lemma SizeMeans(node: Node, children: seq<Node>, last: Node)
    ensures node.content == [] ==> Size(node) == 1
    ensures node.content == children + [last] ==>
              Size(node) == Size(node.(content := children)) + Size(last)
  {
    if node.content == children + [last] {
      assert (children + [last])[..|children|] == children;
    }
  }

  // ----- the three loaders -----

  method CheckControl(root: Node) returns (error: Option<Rejection>)
    ensures error == None <==> Size(root) <= 10000 && Height(root) <= 32 && Plain(root)
  {
    var nodes;
    error, nodes := LoadCheck(root, MAX_CONTROL_NODES);
  }

  method CheckInventory(root: Node) returns (error: Option<Rejection>)
    ensures error == None <==> Size(root) <= 10000 && Height(root) <= 32 && Plain(root)
  {
    var nodes;
    error, nodes := LoadCheck(root, MAX_INVENTORY_NODES);
  }

  method CheckAssessment(root: Node) returns (error: Option<Rejection>)
    ensures error == None <==> Size(root) <= 20000 && Height(root) <= 32 && Plain(root)
  {
    var nodes;
    error, nodes := LoadCheck(root, MAX_ASSESSMENT_NODES);
  }
}
