/** The effect of the mutators on the arena, as functions: the checks
    `addChild` makes before it touches anything, the rebuilt child lists,
    and what these do to reachability and to the acyclicity invariant. */
module Mutation {
  import opened Arena

  /** The store after node `p`'s `children` field is reassigned to `kids`. */
  function Relink<V>(nodes: seq<Node<V>>, p: NodeId, kids: seq<NodeId>): (r: seq<Node<V>>)
    requires p < |nodes|
    ensures |r| == |nodes| && r[p].value == nodes[p].value && r[p].children == kids
    ensures forall x :: 0 <= x < |nodes| && x != p ==> r[x] == nodes[x]
  {
    nodes[p := Node(nodes[p].value, kids)]
  }

  /** Only the last reassignment of a `children` field is visible. */
  lemma RelinkTwice<V>(nodes: seq<Node<V>>, p: NodeId, first: seq<NodeId>, second: seq<NodeId>)
    requires p < |nodes|
    ensures Relink(Relink(nodes, p, first), p, second) == Relink(nodes, p, second)
  {
  }

  /** The list `addChild(index, c)` builds: `c` lands at `index` and every
      child from `index` on moves one place later. */
  function Inserted(kids: seq<NodeId>, index: nat, c: NodeId): (r: seq<NodeId>)
    requires index <= |kids|
    ensures |r| == |kids| + 1 && r[index] == c
    ensures forall j :: 0 <= j < index ==> r[j] == kids[j]
    ensures forall j :: index < j < |r| ==> r[j] == kids[j - 1]
  {
    kids[..index] + [c] + kids[index..]
  }

  /** The list `removeChild(index)` builds: the child at `index` is dropped
      and every later child moves one place earlier. */
  function Removed(kids: seq<NodeId>, index: nat): (r: seq<NodeId>)
    requires index < |kids|
    ensures |r| == |kids| - 1
    ensures forall j :: 0 <= j < index ==> r[j] == kids[j]
    ensures forall j :: index <= j < |r| ==> r[j] == kids[j + 1]
  {
    kids[..index] + kids[index + 1..]
  }

  /** The two checks of `addChild(c)` on `p`: `c` must not already be in
      `p`'s subtree (`p` itself included), and `p` must not be in `c`'s. */
  function AttachCheck<V>(nodes: seq<Node<V>>, ghost rank: seq<nat>, p: NodeId, c: NodeId): (r: Outcome)
    requires Ranked(nodes, rank) && p < |nodes| && c < |nodes|
    ensures r.Fail? ==> r.error == IllegalArgument
  {
    if Contains(nodes, rank, p, c) then Fail(IllegalArgument)
    else if Contains(nodes, rank, c, p) then Fail(IllegalArgument)
    else Pass
  }

  /** `addChild(c)` on `p` is accepted exactly when neither node reaches the
      other along child links. */
  lemma AttachCheckIffApart<V>(nodes: seq<Node<V>>, rank: seq<nat>, p: NodeId, c: NodeId)
    requires Ranked(nodes, rank) && p < |nodes| && c < |nodes|
    ensures AttachCheck(nodes, rank, p, c).Pass? <==> !Reaches(nodes, p, c) && !Reaches(nodes, c, p)
  {
    ContainsIffReaches(nodes, rank, p, c);
    ContainsIffReaches(nodes, rank, c, p);
  }

  /** The checks of `addChild(index, c)`: the index must name an existing
      position (so `index == numberOfChildren()` is refused), then the two
      reachability checks. */
  function InsertCheck<V>(nodes: seq<Node<V>>, ghost rank: seq<nat>, p: NodeId, index: int, c: NodeId): (r: Outcome)
    requires Ranked(nodes, rank) && p < |nodes| && c < |nodes|
    ensures r.Pass? <==> 0 <= index < |nodes[p].children| && AttachCheck(nodes, rank, p, c).Pass?
    ensures r.Fail? ==> r.error == IllegalArgument
  {
    if index < 0 || index >= |nodes[p].children| then Fail(IllegalArgument)
    else AttachCheck(nodes, rank, p, c)
  }

  /** A ranking of the store after `c` is attached under `p`: every node
      that reaches `p` is lifted above `c`. */
  ghost function AttachRank<V>(nodes: seq<Node<V>>, rank: seq<nat>, p: NodeId, c: NodeId): seq<nat>
    requires Ranked(nodes, rank) && p < |nodes| && c < |nodes|
  {
    seq(|nodes|, x requires 0 <= x < |nodes| =>
      if Contains(nodes, rank, x, p) then rank[x] + rank[c] + 1 else rank[x])
  }

  /** When `c` does not reach `p`, giving `p` any child list made of its old
      children and `c` leaves the store ranked, hence acyclic. */
  lemma AttachKeepsRanked<V>(nodes: seq<Node<V>>, rank: seq<nat>, p: NodeId, c: NodeId, kids: seq<NodeId>)
    requires Ranked(nodes, rank) && p < |nodes| && c < |nodes|
    requires !Contains(nodes, rank, c, p)
    requires forall k :: k in kids ==> k == c || k in nodes[p].children
    ensures Ranked(Relink(nodes, p, kids), AttachRank(nodes, rank, p, c))
  {
    var after, lifted := Relink(nodes, p, kids), AttachRank(nodes, rank, p, c);
    forall x, j | 0 <= x < |after| && 0 <= j < |after[x].children|
      ensures after[x].children[j] < |after| && lifted[after[x].children[j]] < lifted[x]
    {
      var y := after[x].children[j];
      if x != p {
        if Contains(nodes, rank, y, p) {
          ContainsViaChild(nodes, rank, x, j, p);
        }
      } else if y != c {
        assert y in nodes[p].children;
      }
    }
  }

  /** Dropping or reordering children keeps the same ranking. */
  lemma DetachKeepsRanked<V>(nodes: seq<Node<V>>, rank: seq<nat>, p: NodeId, kids: seq<NodeId>)
    requires Ranked(nodes, rank) && p < |nodes|
    requires forall k :: k in kids ==> k in nodes[p].children
    ensures Ranked(Relink(nodes, p, kids), rank)
  {
    var after := Relink(nodes, p, kids);
    forall x, j | 0 <= x < |after| && 0 <= j < |after[x].children|
      ensures after[x].children[j] < |after| && rank[after[x].children[j]] < rank[x]
    {
      if x == p {
        assert after[x].children[j] in nodes[p].children;
      }
    }
  }

  /** The check `c.contains(this)` is exactly what acyclicity needs: adding
      `c` to `p`'s children keeps the store acyclic if and only if `c` does
      not reach `p`. */
  lemma AttachAcyclicIff<V>(nodes: seq<Node<V>>, rank: seq<nat>, p: NodeId, c: NodeId, kids: seq<NodeId>)
    requires Ranked(nodes, rank) && p < |nodes| && c < |nodes|
    requires c in kids
    requires forall k :: k in kids ==> k == c || k in nodes[p].children
    requires forall k :: k in nodes[p].children ==> k in kids
    ensures Acyclic(Relink(nodes, p, kids)) <==> !Contains(nodes, rank, c, p)
  {
    var after := Relink(nodes, p, kids);
    if Contains(nodes, rank, c, p) {
      var path := PathOf(nodes, rank, c, p);
      var cycle := [p] + path;
      assert IsPath(after, cycle) by {
        forall i | 0 <= i < |cycle| - 1
          ensures cycle[i + 1] in after[cycle[i]].children
        {
          if i > 0 {
            assert cycle[i] == path[i - 1] && cycle[i + 1] == path[i];
          }
        }
      }
      assert cycle[0] == cycle[|cycle| - 1];
    } else {
      AttachKeepsRanked(nodes, rank, p, c, kids);
      RankedAcyclic(after, AttachRank(nodes, rank, p, c));
    }
  }

  /** Reassigning the children of `p` changes nothing that is seen from a
      node that does not reach `p`. */
  lemma {:induction false} ContainsFrame<V>(nodes: seq<Node<V>>, rank: seq<nat>, p: NodeId, kids: seq<NodeId>,
                                            rank2: seq<nat>, x: NodeId, y: NodeId)
    requires Ranked(nodes, rank) && p < |nodes| && x < |nodes|
    requires Ranked(Relink(nodes, p, kids), rank2)
    requires !Contains(nodes, rank, x, p)
    ensures Contains(Relink(nodes, p, kids), rank2, x, y) == Contains(nodes, rank, x, y)
    decreases rank[x]
  {
    var after := Relink(nodes, p, kids);
    assert after[x] == nodes[x];
    forall j | 0 <= j < |nodes[x].children|
      ensures Contains(after, rank2, nodes[x].children[j], y) == Contains(nodes, rank, nodes[x].children[j], y)
    {
      ContainsFrame(nodes, rank, p, kids, rank2, nodes[x].children[j], y);
    }
  }

  /** `removeChild(i)` followed by `addChild(i, removed)` puts the store back
      exactly as it was, when the removed child was not the last one and no
      other child of `p` leads to it. */
  lemma RemoveThenInsertRestores<V>(nodes: seq<Node<V>>, rank: seq<nat>, p: NodeId, i: nat)
    requires Ranked(nodes, rank) && p < |nodes| && i + 1 < |nodes[p].children|
    requires forall j :: 0 <= j < |nodes[p].children| && j != i ==>
               !Contains(nodes, rank, nodes[p].children[j], nodes[p].children[i])
    ensures Ranked(Relink(nodes, p, Removed(nodes[p].children, i)), rank)
    ensures InsertCheck(Relink(nodes, p, Removed(nodes[p].children, i)), rank, p, i, nodes[p].children[i]) == Pass
    ensures Relink(Relink(nodes, p, Removed(nodes[p].children, i)), p,
                   Inserted(Removed(nodes[p].children, i), i, nodes[p].children[i])) == nodes
  {
    var kids := nodes[p].children;
    var c, rest := kids[i], Removed(kids, i);
    var mid := Relink(nodes, p, rest);
    DetachKeepsRanked(nodes, rank, p, rest);
    assert c < |nodes| && rank[c] < rank[p];
    // `c` cannot reach `p`: its rank is below `p`'s.
    if Contains(mid, rank, c, p) {
      ContainsRank(mid, rank, c, p);
    }
    // `p` no longer reaches `c`: none of its remaining children does.
    if Contains(mid, rank, p, c) {
      var j :| 0 <= j < |rest| && Contains(mid, rank, rest[j], c);
      var k := if j < i then j else j + 1;
      assert rest[j] == kids[k] && k != i;
      if Contains(nodes, rank, kids[k], p) {
        ContainsRank(nodes, rank, kids[k], p);
      }
      ContainsFrame(nodes, rank, p, rest, rank, kids[k], c);
    }
    assert InsertCheck(mid, rank, p, i, c) == Pass;
    assert Inserted(rest, i, c) == kids;
  }

  /** The round trip cannot succeed when another child of `p` leads to the
      removed one: `p` still reaches it after the removal, so
      `addChild(i, removed)` refuses it as already in `p`'s subtree. */
  lemma RemoveThenInsertSiblingFails<V>(nodes: seq<Node<V>>, rank: seq<nat>, p: NodeId, i: nat, j: nat)
    requires Ranked(nodes, rank) && p < |nodes| && i < |nodes[p].children| && j < |nodes[p].children| && j != i
    requires Contains(nodes, rank, nodes[p].children[j], nodes[p].children[i])
    ensures Ranked(Relink(nodes, p, Removed(nodes[p].children, i)), rank)
    ensures InsertCheck(Relink(nodes, p, Removed(nodes[p].children, i)), rank, p, i, nodes[p].children[i])
            == Fail(IllegalArgument)
  {
    var kids := nodes[p].children;
    var c, rest := kids[i], Removed(kids, i);
    var mid := Relink(nodes, p, rest);
    DetachKeepsRanked(nodes, rank, p, rest);
    var k := if j < i then j else j - 1;
    assert rest[k] == kids[j];
    // `kids[j]` is below `p`, so reassigning `p`'s children does not change
    // what it reaches.
    if Contains(nodes, rank, kids[j], p) {
      ContainsRank(nodes, rank, kids[j], p);
    }
    ContainsFrame(nodes, rank, p, rest, rank, kids[j], c);
    ContainsViaChild(mid, rank, p, k, c);
  }

  /** The round trip cannot succeed for the last child: once it is removed,
      its index equals the new child count, which `addChild(index, ...)`
      refuses. */
  lemma RemoveLastThenInsertFails<V>(nodes: seq<Node<V>>, rank: seq<nat>, p: NodeId)
    requires Ranked(nodes, rank) && p < |nodes| && |nodes[p].children| > 0
    ensures var last := |nodes[p].children| - 1;
            var mid := Relink(nodes, p, Removed(nodes[p].children, last));
            Ranked(mid, rank) && InsertCheck(mid, rank, p, last, nodes[p].children[last]) == Fail(IllegalArgument)
  {
    var last := |nodes[p].children| - 1;
    DetachKeepsRanked(nodes, rank, p, Removed(nodes[p].children, last));
  }

  /** `addChildren(c1, ..., cn)`: `addChild` on each argument in turn,
      stopping at the first one refused; the store and its ranking after. */
  ghost function AddAll<V>(nodes: seq<Node<V>>, rank: seq<nat>, p: NodeId, cs: seq<NodeId>): (r: (Outcome, seq<Node<V>>, seq<nat>))
    requires Ranked(nodes, rank) && p < |nodes| && forall i :: 0 <= i < |cs| ==> cs[i] < |nodes|
    ensures Ranked(r.1, r.2) && |r.1| == |nodes|
    decreases |cs|
  {
    if cs == [] then (Pass, nodes, rank)
    else if AttachCheck(nodes, rank, p, cs[0]).Fail? then (AttachCheck(nodes, rank, p, cs[0]), nodes, rank)
    else
      var kids := nodes[p].children + [cs[0]];
      AttachKeepsRanked(nodes, rank, p, cs[0], kids);
      AddAll(Relink(nodes, p, kids), AttachRank(nodes, rank, p, cs[0]), p, cs[1..])
  }

  lemma PrefixStep(kids: seq<NodeId>, cs: seq<NodeId>, m: nat)
    requires m < |cs|
    ensures kids + [cs[0]] + cs[1..][..m] == kids + cs[..m + 1]
  {
    assert cs[..m + 1] == [cs[0]] + cs[1..][..m];
  }

  /** `addChildren` is not transactional: it appends some prefix of its
      arguments, all of them exactly when it succeeds, and touches no other
      node. */
  lemma {:induction false} AddAllAppendsPrefix<V>(nodes: seq<Node<V>>, rank: seq<nat>, p: NodeId, cs: seq<NodeId>)
    returns (k: nat)
    requires Ranked(nodes, rank) && p < |nodes| && forall i :: 0 <= i < |cs| ==> cs[i] < |nodes|
    ensures k <= |cs|
    ensures AddAll(nodes, rank, p, cs).1 == Relink(nodes, p, nodes[p].children + cs[..k])
    ensures AddAll(nodes, rank, p, cs).0 == Pass <==> k == |cs|
    ensures AddAll(nodes, rank, p, cs).0 != Pass ==> AddAll(nodes, rank, p, cs).0 == Fail(IllegalArgument)
    decreases |cs|
  {
    if cs == [] {
      k := 0;
      assert nodes[p].children + cs[..k] == nodes[p].children;
    } else if AttachCheck(nodes, rank, p, cs[0]).Fail? {
      k := 0;
      assert nodes[p].children + cs[..k] == nodes[p].children;
    } else {
      var kids := nodes[p].children + [cs[0]];
      AttachKeepsRanked(nodes, rank, p, cs[0], kids);
      var mid, lifted := Relink(nodes, p, kids), AttachRank(nodes, rank, p, cs[0]);
      assert AddAll(nodes, rank, p, cs) == AddAll(mid, lifted, p, cs[1..]);
      var m := AddAllAppendsPrefix(mid, lifted, p, cs[1..]);
      k := m + 1;
      PrefixStep(nodes[p].children, cs, m);
      RelinkTwice(nodes, p, kids, kids + cs[1..][..m]);
    }
  }
}
