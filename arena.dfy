/** The heap of `Tree<V>` objects, seen as an arena.
    A `NodeId` stands for a (non-null) reference to a `Tree<V>` object: two
    nodes are the same object exactly when their ids are equal, whatever
    their values.  Each node record holds the object's two fields, `value`
    and the ordered list `children` of references.

    Nodes may be shared (the same object listed under two parents, or twice
    under one parent): the structure is a directed acyclic graph, and its
    acyclicity is witnessed by a ghost `rank` that strictly decreases from
    every node to each of its children.  All traversals recurse on it. */
module Arena {

  type NodeId = nat

  /** The fields of one `Tree<V>` object. */
  datatype Node<V> = Node(value: V, children: seq<NodeId>)

  /** The two exceptions the operations throw. */
  datatype Error = NoSuchElement | IllegalArgument

  /** A reference that may be null (`firstChild`, `lastChild`). */
  datatype Option<T> = None | Some(value: T)

  /** The result of an operation that returns a value or throws. */
  datatype Result<T> = Ok(value: T) | Err(error: Error)

  /** The result of a `void` operation that may throw. */
  datatype Outcome = Pass | Fail(error: Error)

  /** Every child reference points to an allocated node, and `rank`
      witnesses that the child relation is well founded. */
  ghost predicate Ranked<V>(nodes: seq<Node<V>>, rank: seq<nat>)
  {
    |rank| == |nodes| &&
    forall x, j :: 0 <= x < |nodes| && 0 <= j < |nodes[x].children| ==>
      nodes[x].children[j] < |nodes| && rank[nodes[x].children[j]] < rank[x]
  }

  /** A rank above every node of `kids`: what a new node with these
      children can be given. */
  ghost function RankAbove(rank: seq<nat>, kids: seq<NodeId>): (h: nat)
    requires forall i :: 0 <= i < |kids| ==> kids[i] < |rank|
    ensures forall i :: 0 <= i < |kids| ==> rank[kids[i]] < h
    decreases |kids|
  {
    if kids == [] then 0
    else
      var rest := RankAbove(rank, kids[1..]);
      if rank[kids[0]] < rest then rest else rank[kids[0]] + 1
  }

  /** Identity reachability, as `contains`: `b` is `a` itself or lies in the
      subtree of one of `a`'s children.  A node always contains itself, and
      only allocated nodes are ever found. */
  function Contains<V>(nodes: seq<Node<V>>, ghost rank: seq<nat>, a: NodeId, b: NodeId): (r: bool)
    requires Ranked(nodes, rank) && a < |nodes|
    ensures a == b ==> r
    ensures r ==> b < |nodes|
    decreases rank[a]
  {
    a == b ||
    exists j :: 0 <= j < |nodes[a].children| && Contains(nodes, rank, nodes[a].children[j], b)
  }

  /** A walk along child links, from `path[0]` to its last element. */
  ghost predicate IsPath<V>(nodes: seq<Node<V>>, path: seq<NodeId>)
  {
    |path| > 0 &&
    (forall i :: 0 <= i < |path| ==> path[i] < |nodes|) &&
    (forall i :: 0 <= i < |path| - 1 ==> path[i + 1] in nodes[path[i]].children)
  }

  /** Reachability stated independently of any ranking. */
  ghost predicate Reaches<V>(nodes: seq<Node<V>>, a: NodeId, b: NodeId)
  {
    exists path :: IsPath(nodes, path) && path[0] == a && path[|path| - 1] == b
  }

  /** No node is its own proper descendant. */
  ghost predicate Acyclic<V>(nodes: seq<Node<V>>)
  {
    forall path :: IsPath(nodes, path) && |path| > 1 ==> path[0] != path[|path| - 1]
  }

  /** A node reaches its child's descendants. */
  lemma ContainsViaChild<V>(nodes: seq<Node<V>>, rank: seq<nat>, a: NodeId, j: nat, b: NodeId)
    requires Ranked(nodes, rank) && a < |nodes| && j < |nodes[a].children|
    requires Contains(nodes, rank, nodes[a].children[j], b)
    ensures Contains(nodes, rank, a, b)
  {
  }

  /** A node that is nobody's child, such as a freshly constructed one, is
      contained in no subtree but its own. */
  lemma {:induction false} ContainsOrphan<V>(nodes: seq<Node<V>>, rank: seq<nat>, a: NodeId, b: NodeId)
    requires Ranked(nodes, rank) && a < |nodes|
    requires forall x, j :: 0 <= x < |nodes| && 0 <= j < |nodes[x].children| ==> nodes[x].children[j] != b
    ensures Contains(nodes, rank, a, b) <==> a == b
    decreases rank[a]
  {
    if a != b {
      forall j | 0 <= j < |nodes[a].children|
        ensures !Contains(nodes, rank, nodes[a].children[j], b)
      {
        ContainsOrphan(nodes, rank, nodes[a].children[j], b);
      }
    }
  }

  /** Ranks do not grow along reachability. */
  lemma {:induction false} ContainsRank<V>(nodes: seq<Node<V>>, rank: seq<nat>, a: NodeId, b: NodeId)
    requires Ranked(nodes, rank) && a < |nodes|
    requires Contains(nodes, rank, a, b)
    ensures b < |nodes| && rank[b] <= rank[a]
    ensures a != b ==> rank[b] < rank[a]
    decreases rank[a]
  {
    if a != b {
      var j :| 0 <= j < |nodes[a].children| && Contains(nodes, rank, nodes[a].children[j], b);
      ContainsRank(nodes, rank, nodes[a].children[j], b);
    }
  }

  /** `contains` finds exactly the nodes that a walk along child links reaches. */
  lemma {:induction false} ContainsIffReaches<V>(nodes: seq<Node<V>>, rank: seq<nat>, a: NodeId, b: NodeId)
    requires Ranked(nodes, rank) && a < |nodes|
    ensures Contains(nodes, rank, a, b) <==> Reaches(nodes, a, b)
  {
    if Contains(nodes, rank, a, b) {
      var path := PathOf(nodes, rank, a, b);
    }
    if Reaches(nodes, a, b) {
      var path :| IsPath(nodes, path) && path[0] == a && path[|path| - 1] == b;
      PathContains(nodes, rank, path);
    }
  }

  lemma {:induction false} PathOf<V>(nodes: seq<Node<V>>, rank: seq<nat>, a: NodeId, b: NodeId) returns (path: seq<NodeId>)
    requires Ranked(nodes, rank) && a < |nodes|
    requires Contains(nodes, rank, a, b)
    ensures IsPath(nodes, path) && path[0] == a && path[|path| - 1] == b
    decreases rank[a]
  {
    if a == b {
      path := [a];
    } else {
      var j :| 0 <= j < |nodes[a].children| && Contains(nodes, rank, nodes[a].children[j], b);
      var rest := PathOf(nodes, rank, nodes[a].children[j], b);
      path := [a] + rest;
      forall i | 0 <= i < |path| - 1
        ensures path[i + 1] in nodes[path[i]].children
      {
        if i > 0 {
          assert path[i] == rest[i - 1] && path[i + 1] == rest[i];
        }
      }
    }
  }

  lemma {:induction false} PathContains<V>(nodes: seq<Node<V>>, rank: seq<nat>, path: seq<NodeId>)
    requires Ranked(nodes, rank) && IsPath(nodes, path)
    ensures Contains(nodes, rank, path[0], path[|path| - 1])
    decreases |path|
  {
    if |path| > 1 {
      var rest := path[1..];
      assert IsPath(nodes, rest) by {
        forall i | 0 <= i < |rest| - 1
          ensures rest[i + 1] in nodes[rest[i]].children
        {
          assert rest[i] == path[i + 1] && rest[i + 1] == path[i + 2];
        }
      }
      PathContains(nodes, rank, rest);
      assert path[1] in nodes[path[0]].children;
      var j :| 0 <= j < |nodes[path[0]].children| && nodes[path[0]].children[j] == path[1];
      ContainsViaChild(nodes, rank, path[0], j, path[|path| - 1]);
    }
  }

  /** Ranks strictly decrease along a walk of at least one link. */
  lemma {:induction false} PathRank<V>(nodes: seq<Node<V>>, rank: seq<nat>, path: seq<NodeId>)
    requires Ranked(nodes, rank) && IsPath(nodes, path) && |path| > 1
    ensures rank[path[|path| - 1]] < rank[path[0]]
    decreases |path|
  {
    assert path[1] in nodes[path[0]].children;
    if |path| > 2 {
      var rest := path[1..];
      assert IsPath(nodes, rest) by {
        forall i | 0 <= i < |rest| - 1
          ensures rest[i + 1] in nodes[rest[i]].children
        {
          assert rest[i] == path[i + 1] && rest[i + 1] == path[i + 2];
        }
      }
      PathRank(nodes, rank, rest);
    }
  }

  /** A ranked store has no cycle: the invariant every operation keeps. */
  lemma RankedAcyclic<V>(nodes: seq<Node<V>>, rank: seq<nat>)
    requires Ranked(nodes, rank)
    ensures Acyclic(nodes)
  {
    forall path | IsPath(nodes, path) && |path| > 1
      ensures path[0] != path[|path| - 1]
    {
      PathRank(nodes, rank, path);
    }
  }
}
