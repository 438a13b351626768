/** Structural equality, `equals`: value against value, child against child,
    whatever the objects involved.  Its reference definition is equality of
    the trees the two nodes unfold to. */
module Equality {
  import opened Arena
  import opened Mutation

  /** The value a node unfolds to: its payload and its children's trees, in
      order.  Shared subtrees are unfolded once per occurrence. */
  datatype Unfolded<V> = Unfolded(value: V, children: seq<Unfolded<V>>)

  ghost function Shape<V>(nodes: seq<Node<V>>, rank: seq<nat>, a: NodeId): Unfolded<V>
    requires Ranked(nodes, rank) && a < |nodes|
    decreases rank[a]
  {
    Unfolded(nodes[a].value,
         seq(|nodes[a].children|, i requires 0 <= i < |nodes[a].children| => Shape(nodes, rank, nodes[a].children[i])))
  }

  /** Two trees are equal when their values, their child counts and their
      children position by position are. */
  lemma ShapeEqualUnfold<V>(nodes: seq<Node<V>>, rank: seq<nat>, a: NodeId, b: NodeId)
    requires Ranked(nodes, rank) && a < |nodes| && b < |nodes|
    ensures Shape(nodes, rank, a) == Shape(nodes, rank, b) <==>
      nodes[a].value == nodes[b].value &&
      |nodes[a].children| == |nodes[b].children| &&
      forall i :: 0 <= i < |nodes[a].children| ==>
        Shape(nodes, rank, nodes[a].children[i]) == Shape(nodes, rank, nodes[b].children[i])
  {
    var ca, cb := nodes[a].children, nodes[b].children;
    var sa, sb := Shape(nodes, rank, a).children, Shape(nodes, rank, b).children;
    if |ca| == |cb| && forall i :: 0 <= i < |ca| ==> Shape(nodes, rank, ca[i]) == Shape(nodes, rank, cb[i]) {
      assert sa == sb by {
        forall i | 0 <= i < |sa|
          ensures sa[i] == sb[i]
        {
          assert sa[i] == Shape(nodes, rank, ca[i]);
        }
      }
    }
    if Shape(nodes, rank, a) == Shape(nodes, rank, b) {
      forall i | 0 <= i < |ca|
        ensures Shape(nodes, rank, ca[i]) == Shape(nodes, rank, cb[i])
      {
        assert sa[i] == sb[i];
      }
    }
  }

  /** `a.equals(b)`: equal values, equal child counts, and children equal
      position by position; this is exactly equality of the unfolded trees. */
  function Equal<V(==)>(nodes: seq<Node<V>>, ghost rank: seq<nat>, a: NodeId, b: NodeId): (r: bool)
    requires Ranked(nodes, rank) && a < |nodes| && b < |nodes|
    ensures r <==> Shape(nodes, rank, a) == Shape(nodes, rank, b)
    decreases rank[a]
  {
    ShapeEqualUnfold(nodes, rank, a, b);
    nodes[a].value == nodes[b].value &&
    |nodes[a].children| == |nodes[b].children| &&
    forall i :: 0 <= i < |nodes[a].children| ==>
      Equal(nodes, rank, nodes[a].children[i], nodes[b].children[i])
  }

  /** Every node equals itself. */
  lemma EqualReflexive<V>(nodes: seq<Node<V>>, rank: seq<nat>, a: NodeId)
    requires Ranked(nodes, rank) && a < |nodes|
    ensures Equal(nodes, rank, a, a)
  {
  }

  lemma EqualSymmetric<V>(nodes: seq<Node<V>>, rank: seq<nat>, a: NodeId, b: NodeId)
    requires Ranked(nodes, rank) && a < |nodes| && b < |nodes|
    ensures Equal(nodes, rank, a, b) == Equal(nodes, rank, b, a)
  {
  }

  lemma EqualTransitive<V>(nodes: seq<Node<V>>, rank: seq<nat>, a: NodeId, b: NodeId, c: NodeId)
    requires Ranked(nodes, rank) && a < |nodes| && b < |nodes| && c < |nodes|
    requires Equal(nodes, rank, a, b) && Equal(nodes, rank, b, c)
    ensures Equal(nodes, rank, a, c)
  {
  }

  /** Equality ignores identity: a distinct node with the same value whose
      children are the very same objects as another's is equal to it. */
  lemma EqualIgnoresIdentity<V>(nodes: seq<Node<V>>, rank: seq<nat>, a: NodeId, b: NodeId)
    requires Ranked(nodes, rank) && a < |nodes| && b < |nodes|
    requires nodes[a].value == nodes[b].value && nodes[a].children == nodes[b].children
    ensures Equal(nodes, rank, a, b)
  {
    forall i | 0 <= i < |nodes[a].children|
      ensures Equal(nodes, rank, nodes[a].children[i], nodes[b].children[i])
    {
      EqualReflexive(nodes, rank, nodes[a].children[i]);
    }
  }

  /** A node's tree does not depend on the ranking used to unfold it, nor on
      the fields of nodes it does not reach. */
  lemma {:induction false} ShapeFrame<V>(nodes: seq<Node<V>>, rank: seq<nat>, p: NodeId, kids: seq<NodeId>,
                                         rank2: seq<nat>, x: NodeId)
    requires Ranked(nodes, rank) && p < |nodes| && x < |nodes|
    requires Ranked(Relink(nodes, p, kids), rank2)
    requires !Contains(nodes, rank, x, p)
    ensures Shape(Relink(nodes, p, kids), rank2, x) == Shape(nodes, rank, x)
    decreases rank[x]
  {
    var after := Relink(nodes, p, kids);
    assert after[x] == nodes[x];
    forall i | 0 <= i < |nodes[x].children|
      ensures Shape(after, rank2, nodes[x].children[i]) == Shape(nodes, rank, nodes[x].children[i])
    {
      ShapeFrame(nodes, rank, p, kids, rank2, nodes[x].children[i]);
    }
  }

  /** `removeChild` hands back a subtree that it did not touch. */
  lemma RemovedSubtreeUntouched<V>(nodes: seq<Node<V>>, rank: seq<nat>, p: NodeId, i: nat)
    requires Ranked(nodes, rank) && p < |nodes| && i < |nodes[p].children|
    ensures Ranked(Relink(nodes, p, Removed(nodes[p].children, i)), rank)
    ensures Shape(Relink(nodes, p, Removed(nodes[p].children, i)), rank, nodes[p].children[i])
         == Shape(nodes, rank, nodes[p].children[i])
  {
    var c := nodes[p].children[i];
    DetachKeepsRanked(nodes, rank, p, Removed(nodes[p].children, i));
    if Contains(nodes, rank, c, p) {
      ContainsRank(nodes, rank, c, p);
    }
    ShapeFrame(nodes, rank, p, Removed(nodes[p].children, i), rank, c);
  }
}
