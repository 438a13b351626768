/** The canonical rendering, `toString`: one line per node in pre-order,
    the node's value indented by two spaces per level of depth. */
module Rendering {
  import opened Arena
  import opened Equality

  /** `toString(t, indent)`: the node's own line, then each child's
      rendering, in order, two spaces further in.  `show` stands for the
      payload's own `toString`. */
  function Render<V>(nodes: seq<Node<V>>, ghost rank: seq<nat>, show: V -> string, t: NodeId, indent: string): (r: string)
    requires Ranked(nodes, rank) && t < |nodes|
    ensures |r| > |indent| && r[..|indent|] == indent && r[|r| - 1] == '\n'
    decreases rank[t], 1, 0
  {
    indent + show(nodes[t].value) + "\n" +
    RenderChildren(nodes, rank, show, nodes[t].children, rank[t], indent + "  ")
  }

  /** The renderings of `kids`, one after the other, as the loop of
      `toString(t, indent)` appends them. */
  function RenderChildren<V>(nodes: seq<Node<V>>, ghost rank: seq<nat>, show: V -> string,
                             kids: seq<NodeId>, ghost bound: nat, indent: string): (r: string)
    requires Ranked(nodes, rank)
    requires forall i :: 0 <= i < |kids| ==> kids[i] < |nodes| && rank[kids[i]] < bound
    ensures r == "" <==> kids == []
    ensures r != "" ==> |r| > |indent| && r[..|indent|] == indent && r[|r| - 1] == '\n'
    decreases bound, 0, |kids|
  {
    if kids == [] then ""
    else Render(nodes, rank, show, kids[0], indent) + RenderChildren(nodes, rank, show, kids[1..], bound, indent)
  }

  /** `toString()`: the rendering of the whole subtree, starting unindented;
      it lists the subtree in pre-order, one line per node, the root
      unindented and each level two spaces further in. */
  function ToString<V>(nodes: seq<Node<V>>, ghost rank: seq<nat>, show: V -> string, t: NodeId): (r: string)
    requires Ranked(nodes, rank) && t < |nodes|
    ensures r == Lines(show, "", Outline([Shape(nodes, rank, t)], 0))
  {
    RenderIsOutline(nodes, rank, show, t, "", 0);
    assert "" + Indent(0) == "";
    Render(nodes, rank, show, t, "")
  }

  /** `2 * depth` spaces. */
  function Indent(depth: nat): (s: string)
    ensures |s| == 2 * depth && forall i :: 0 <= i < |s| ==> s[i] == ' '
  {
    seq(2 * depth, _ => ' ')
  }

  /** The reference definition: the (depth, value) pairs of a list of trees
      in pre-order, each tree at `depth` and its children one level below. */
  function Outline<V>(ts: seq<Unfolded<V>>, depth: nat): seq<(nat, V)>
    decreases ts
  {
    if ts == [] then []
    else [(depth, ts[0].value)] + Outline(ts[0].children, depth + 1) + Outline(ts[1..], depth)
  }

  /** One line per entry of an outline: `base`, the entry's indentation,
      its value and a newline. */
  function Lines<V>(show: V -> string, base: string, outline: seq<(nat, V)>): string
  {
    if outline == [] then ""
    else base + Indent(outline[0].0) + show(outline[0].1) + "\n" + Lines(show, base, outline[1..])
  }

  lemma {:induction false} LinesAppend<V>(show: V -> string, base: string, a: seq<(nat, V)>, b: seq<(nat, V)>)
    ensures Lines(show, base, a + b) == Lines(show, base, a) + Lines(show, base, b)
    decreases |a|
  {
    if a != [] {
      assert (a + b)[1..] == a[1..] + b;
      LinesAppend(show, base, a[1..], b);
    } else {
      assert a + b == b;
    }
  }

  /** The trees of a list of nodes. */
  ghost function Shapes<V>(nodes: seq<Node<V>>, rank: seq<nat>, kids: seq<NodeId>): (ts: seq<Unfolded<V>>)
    requires Ranked(nodes, rank) && forall i :: 0 <= i < |kids| ==> kids[i] < |nodes|
    ensures |ts| == |kids|
  {
    seq(|kids|, i requires 0 <= i < |kids| => Shape(nodes, rank, kids[i]))
  }

  /** The rendering is the pre-order outline of the node's tree, line by
      line. */
  lemma {:induction false} RenderIsOutline<V>(nodes: seq<Node<V>>, rank: seq<nat>, show: V -> string,
                                              t: NodeId, base: string, depth: nat)
    requires Ranked(nodes, rank) && t < |nodes|
    ensures Render(nodes, rank, show, t, base + Indent(depth)) ==
            Lines(show, base, Outline([Shape(nodes, rank, t)], depth))
    decreases rank[t], 1, 0
  {
    var kids := nodes[t].children;
    var s := Shape(nodes, rank, t);
    assert base + Indent(depth) + "  " == base + Indent(depth + 1);
    RenderChildrenIsOutline(nodes, rank, show, kids, rank[t], base, depth + 1);
    assert s.children == Shapes(nodes, rank, kids);
    assert [s][1..] == [];
    var o := Outline(s.children, depth + 1);
    assert Outline([s], depth) == [(depth, s.value)] + o;
    assert Lines(show, base, [(depth, s.value)] + o) == base + Indent(depth) + show(s.value) + "\n" + Lines(show, base, o) by {
      assert ([(depth, s.value)] + o)[1..] == o;
    }
  }

  lemma {:induction false} RenderChildrenIsOutline<V>(nodes: seq<Node<V>>, rank: seq<nat>, show: V -> string,
                                                      kids: seq<NodeId>, bound: nat, base: string, depth: nat)
    requires Ranked(nodes, rank)
    requires forall i :: 0 <= i < |kids| ==> kids[i] < |nodes| && rank[kids[i]] < bound
    ensures RenderChildren(nodes, rank, show, kids, bound, base + Indent(depth)) ==
            Lines(show, base, Outline(Shapes(nodes, rank, kids), depth))
    decreases bound, 0, |kids|
  {
    if kids != [] {
      var ts := Shapes(nodes, rank, kids);
      RenderIsOutline(nodes, rank, show, kids[0], base, depth);
      RenderChildrenIsOutline(nodes, rank, show, kids[1..], bound, base, depth);
      assert ts[1..] == Shapes(nodes, rank, kids[1..]);
      assert [ts[0]][1..] == [];
      var head := [(depth, ts[0].value)] + Outline(ts[0].children, depth + 1);
      assert Outline([ts[0]], depth) == head;
      assert Outline(ts, depth) == head + Outline(ts[1..], depth);
      LinesAppend(show, base, head, Outline(ts[1..], depth));
    }
  }

  /** Structurally equal nodes render identically. */
  lemma EqualRendersAlike<V>(nodes: seq<Node<V>>, rank: seq<nat>, show: V -> string, a: NodeId, b: NodeId, indent: string)
    requires Ranked(nodes, rank) && a < |nodes| && b < |nodes|
    requires Equal(nodes, rank, a, b)
    ensures Render(nodes, rank, show, a, indent) == Render(nodes, rank, show, b, indent)
  {
    assert indent + Indent(0) == indent;
    RenderIsOutline(nodes, rank, show, a, indent, 0);
    RenderIsOutline(nodes, rank, show, b, indent, 0);
  }
}
