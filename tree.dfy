/** The `Tree<V>` objects of a program and the operations on them.
    A `Forest` is the part of the heap that holds them: `nodes[t]` is the
    state of the object `t`, and every operation of `Tree<V>` takes the
    object it is called on as its first argument. */
module TreeADT {
  import opened Arena
  import opened Mutation

  /** The list `addChild(index, c)` builds before it replaces the children:
      the children before `index`, then `c`, then the rest. */
  method InsertedList(kids: seq<NodeId>, index: nat, c: NodeId) returns (children: seq<NodeId>)
    requires index < |kids|
    ensures children == Inserted(kids, index, c)
  {
    children := [];
    var i := 0;
    while i < index
      invariant 0 <= i <= index && children == kids[..i]
    {
      children := children + [kids[i]];
      i := i + 1;
    }
    children := children + [c];
    var j := index + 1;
    while j <= |kids|
      invariant index + 1 <= j <= |kids| + 1
      invariant children == kids[..index] + [c] + kids[index..j - 1]
    {
      children := children + [kids[j - 1]];
      j := j + 1;
    }
  }

  /** The list `removeChild(index)` builds before it replaces the children:
      every child but the one at `index`, in order. */
  method RemovedList(kids: seq<NodeId>, index: nat) returns (children: seq<NodeId>)
    requires index < |kids|
    ensures children == Removed(kids, index)
  {
    children := [];
    var i := 0;
    while i < index
      invariant 0 <= i <= index && children == kids[..i]
    {
      children := children + [kids[i]];
      i := i + 1;
    }
    var j := index;
    while j < |kids| - 1
      invariant index <= j <= |kids| - 1
      invariant children == kids[..index] + kids[index + 1..j + 1]
    {
      children := children + [kids[j + 1]];
      j := j + 1;
    }
  }

  class Forest<V> {
    /** The fields of every `Tree<V>` object, by reference. */
    var nodes: seq<Node<V>>
    /** A ranking that witnesses that no node is its own descendant. */
    ghost var rank: seq<nat>

    ghost predicate Valid()
      reads this
    {
      Ranked(nodes, rank)
    }

    /** A heap with no `Tree<V>` object in it yet. */
    constructor ()
      ensures Valid() && nodes == []
    {
      nodes := [];
      rank := [];
    }

    /** `new Tree<V>(value, kids...)`: a fresh node whose children are
        `kids`, in argument order, taken without any check.  Since nothing
        refers to the new node yet, it cannot close a cycle. */
    method NewTree(value: V, kids: seq<NodeId>) returns (t: NodeId)
      requires Valid()
      requires forall i :: 0 <= i < |kids| ==> kids[i] < |nodes|
      modifies this
      ensures Valid()
      ensures t == |old(nodes)| && nodes == old(nodes) + [Node(value, kids)]
    {
      var children: seq<NodeId> := [];
      var i := 0;
      while i < |kids|
        invariant 0 <= i <= |kids| && children == kids[..i]
      {
        children := children + [kids[i]];
        i := i + 1;
      }
      assert children == kids;
      t := |nodes|;
      rank := rank + [RankAbove(rank, kids)];
      nodes := nodes + [Node(value, children)];
    }

    /** `getValue()`. */
    function Value(t: NodeId): V
      reads this
      requires t < |nodes|
    {
      nodes[t].value
    }

    /** `numberOfChildren()`. */
    function NumberOfChildren(t: NodeId): nat
      reads this
      requires t < |nodes|
    {
      |nodes[t].children|
    }

    /** `children()`: the children, in order, as iteration visits them:
        the i-th child visited is `child(i)`. */
    function Children(t: NodeId): (r: seq<NodeId>)
      reads this
      requires t < |nodes|
      ensures |r| == NumberOfChildren(t)
      ensures forall i :: 0 <= i < |r| ==> Child(t, i) == Ok(r[i])
    {
      nodes[t].children
    }

    /** `isLeaf()`. */
    predicate IsLeaf(t: NodeId)
      reads this
      requires t < |nodes|
      ensures IsLeaf(t) <==> Child(t, 0).Err?
    {
      NumberOfChildren(t) == 0
    }

    /** `child(index)`: the child at `index`, or `NoSuchElement` when there
        is none. */
    function Child(t: NodeId, index: int): (r: Result<NodeId>)
      reads this
      requires t < |nodes|
      ensures r.Err? <==> index < 0 || index >= NumberOfChildren(t)
      ensures r.Err? ==> r.error == NoSuchElement
      ensures r.Ok? ==> r.value == nodes[t].children[index]
    {
      if index < 0 || index >= |nodes[t].children| then Err(NoSuchElement)
      else Ok(nodes[t].children[index])
    }

    /** `firstChild()`: null exactly for a leaf, otherwise `child(0)`. */
    function FirstChild(t: NodeId): (r: Option<NodeId>)
      reads this
      requires t < |nodes|
      ensures r.None? <==> IsLeaf(t)
      ensures r.Some? ==> Child(t, 0) == Ok(r.value)
    {
      if |nodes[t].children| > 0 then Some(nodes[t].children[0]) else None
    }

    /** `lastChild()`: null exactly for a leaf, otherwise the child at the
        highest index. */
    function LastChild(t: NodeId): (r: Option<NodeId>)
      reads this
      requires t < |nodes|
      ensures r.None? <==> IsLeaf(t)
      ensures r.Some? ==> Child(t, NumberOfChildren(t) - 1) == Ok(r.value)
    {
      if |nodes[t].children| > 0 then Some(nodes[t].children[NumberOfChildren(t) - 1]) else None
    }

    /** `setValue(value)`: replaces the payload; no child list changes. */
    method SetValue(t: NodeId, value: V)
      requires Valid() && t < |nodes|
      modifies this
      ensures Valid() && rank == old(rank)
      ensures Value(t) == value && Children(t) == old(Children(t))
      ensures forall x :: 0 <= x < |nodes| && x != t ==> nodes[x] == old(nodes[x])
      ensures nodes == old(nodes)[t := Node(value, old(nodes)[t].children)]
    {
      nodes := nodes[t := Node(value, nodes[t].children)];
    }

    /** `addChild(c)`: appends `c` to `p`'s children unless `c` is already
        in `p`'s subtree or `p` is in `c`'s; both checks come before any
        change, and the store stays acyclic. */
    method AddChild(p: NodeId, c: NodeId) returns (r: Outcome)
      requires Valid() && p < |nodes| && c < |nodes|
      modifies this
      ensures Valid() && Acyclic(nodes)
      ensures r == AttachCheck(old(nodes), old(rank), p, c)
      ensures r.Pass? ==> nodes == Relink(old(nodes), p, old(nodes)[p].children + [c])
      ensures r.Pass? ==> rank == AttachRank(old(nodes), old(rank), p, c)
      ensures r.Fail? ==> nodes == old(nodes) && rank == old(rank)
    {
      if Contains(nodes, rank, p, c) {
        RankedAcyclic(nodes, rank);
        return Fail(IllegalArgument);
      }
      if Contains(nodes, rank, c, p) {
        RankedAcyclic(nodes, rank);
        return Fail(IllegalArgument);
      }
      var children := nodes[p].children + [c];
      AttachKeepsRanked(nodes, rank, p, c, children);
      rank := AttachRank(nodes, rank, p, c);
      nodes := nodes[p := Node(nodes[p].value, children)];
      RankedAcyclic(nodes, rank);
      r := Pass;
    }

    /** `addChild(index, c)`: inserts `c` at `index`, which must name an
        existing position, shifting the later children one place on; the
        same two checks as `addChild(c)` apply. */
    method AddChildAt(p: NodeId, index: int, c: NodeId) returns (r: Outcome)
      requires Valid() && p < |nodes| && c < |nodes|
      modifies this
      ensures Valid() && Acyclic(nodes)
      ensures r == InsertCheck(old(nodes), old(rank), p, index, c)
      ensures r.Pass? ==> 0 <= index < |old(nodes)[p].children|
      ensures r.Pass? ==> nodes == Relink(old(nodes), p, Inserted(old(nodes)[p].children, index, c))
      ensures r.Pass? ==> rank == AttachRank(old(nodes), old(rank), p, c)
      ensures r.Fail? ==> nodes == old(nodes) && rank == old(rank)
    {
      RankedAcyclic(nodes, rank);
      if index < 0 || index >= |nodes[p].children| {
        return Fail(IllegalArgument);
      }
      if Contains(nodes, rank, p, c) {
        return Fail(IllegalArgument);
      }
      if Contains(nodes, rank, c, p) {
        return Fail(IllegalArgument);
      }
      var children := InsertedList(nodes[p].children, index, c);
      AttachKeepsRanked(nodes, rank, p, c, children);
      rank := AttachRank(nodes, rank, p, c);
      nodes := nodes[p := Node(nodes[p].value, children)];
      RankedAcyclic(nodes, rank);
      r := Pass;
    }

    /** `addChildren(cs...)`: `addChild` on each argument in turn; the first
        refusal ends the call, and what was appended before it stays. */
    method AddChildren(p: NodeId, cs: seq<NodeId>) returns (r: Outcome)
      requires Valid() && p < |nodes|
      requires forall i :: 0 <= i < |cs| ==> cs[i] < |nodes|
      modifies this
      ensures Valid()
      ensures (r, nodes, rank) == AddAll(old(nodes), old(rank), p, cs)
    {
      var i := 0;
      while i < |cs|
        invariant Valid() && 0 <= i <= |cs| && |nodes| == |old(nodes)|
        invariant AddAll(old(nodes), old(rank), p, cs) == AddAll(nodes, rank, p, cs[i..])
      {
        assert cs[i..][1..] == cs[i + 1..];
        r := AddChild(p, cs[i]);
        if r.Fail? {
          return;
        }
        i := i + 1;
      }
      r := Pass;
    }

    /** `removeChild(index)`: removes and returns the child at `index`,
        shifting the later children one place back, or `NoSuchElement`
        when there is no such child. */
    method RemoveChild(p: NodeId, index: int) returns (r: Result<NodeId>)
      requires Valid() && p < |nodes|
      modifies this
      ensures Valid() && rank == old(rank)
      ensures r == old(Child(p, index))
      ensures r.Ok? ==> nodes == Relink(old(nodes), p, Removed(old(nodes)[p].children, index))
      ensures r.Err? ==> nodes == old(nodes)
    {
      if index < 0 || index >= |nodes[p].children| {
        return Err(NoSuchElement);
      }
      var kids := nodes[p].children;
      var removed := kids[index];
      var children := RemovedList(kids, index);
      DetachKeepsRanked(nodes, rank, p, children);
      nodes := nodes[p := Node(nodes[p].value, children)];
      r := Ok(removed);
    }
  }
}
