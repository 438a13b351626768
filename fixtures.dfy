/** The scenarios of the unit tests of `Tree<V>`, on the fixture they build:
    eleven string nodes allocated from "ten" down to "zero", with "four"
    shared between "one" and "two". */
module Fixtures {
  import opened Arena
  import opened Mutation
  import opened Equality
  import opened Rendering
  import opened TreeADT

  const T10: NodeId := 0
  const T9: NodeId := 1
  const T8: NodeId := 2
  const T7: NodeId := 3
  const T6: NodeId := 4
  const T5: NodeId := 5
  const T4: NodeId := 6
  const T3: NodeId := 7
  const T2: NodeId := 8
  const T1: NodeId := 9
  const T0: NodeId := 10

  /** The heap after the fixture is built, node by node. */
  ghost predicate IsFixture(F: seq<Node<string>>)
  {
    |F| == 11 &&
    F[T10] == Node("ten", []) && F[T9] == Node("nine", []) && F[T8] == Node("eight", []) &&
    F[T7] == Node("seven", []) && F[T6] == Node("six", []) &&
    F[T5] == Node("five", [T7, T8, T9, T10]) && F[T4] == Node("four", [T6]) &&
    F[T3] == Node("three", []) && F[T2] == Node("two", [T4, T5]) &&
    F[T1] == Node("one", [T3, T4]) && F[T0] == Node("zero", [T1, T2])
  }

  /** Strings render as themselves. */
  function Show(s: string): string
  {
    s
  }

  /** The first five constructor calls of the fixture: the leaves "ten"
      to "six". */
  method SetUpLeaves(f: Forest<string>)
    requires f.Valid() && f.nodes == []
    modifies f
    ensures f.Valid()
    ensures f.nodes == [Node("ten", []), Node("nine", []), Node("eight", []), Node("seven", []), Node("six", [])]
  {
    var t10 := f.NewTree("ten", []);
    var t9 := f.NewTree("nine", []);
    var t8 := f.NewTree("eight", []);
    var t7 := f.NewTree("seven", []);
    var t6 := f.NewTree("six", []);
  }

  /** Builds the fixture with the operations of `Tree<V>`, in the order the
      tests do. */
  method SetUp() returns (f: Forest<string>)
    ensures fresh(f) && f.Valid() && IsFixture(f.nodes)
  {
    f := new Forest();
    SetUpLeaves(f);
    var t5 := f.NewTree("five", [T7, T8, T9, T10]);
    var t4 := f.NewTree("four", [T6]);
    var t3 := f.NewTree("three", []);
    var t2 := f.NewTree("two", [t4, t5]);
    var t1 := f.NewTree("one", [t3, t4]);
    var t0 := f.NewTree("zero", [t1, t2]);
  }

  /** `testFirstChild`, `testLastChild`, `testChild` and
      `testChildException`: every call they make on the fixture, in order,
      and the two refused indices of "zero". */
  method Accessors() returns (firsts: seq<Option<NodeId>>, lasts: seq<Option<NodeId>>, kids: seq<Result<NodeId>>,
                              below: Result<NodeId>, beyond: Result<NodeId>)
    ensures firsts == [Some(T1), Some(T3), Some(T4), Some(T7)]
    ensures lasts == [Some(T2), Some(T10)]
    ensures kids == [Ok(T2), Ok(T1), Ok(T7), Ok(T8), Ok(T9), Ok(T10)]
    ensures below == Err(NoSuchElement) && beyond == Err(NoSuchElement)
  {
    var f := SetUp();
    firsts := [f.FirstChild(T0), f.FirstChild(T1), f.FirstChild(T2), f.FirstChild(T5)];
    lasts := [f.LastChild(T0), f.LastChild(T5)];
    kids := [f.Child(T0, 1), f.Child(T0, 0), f.Child(T5, 0), f.Child(T5, 1), f.Child(T5, 2), f.Child(T5, 3)];
    below := f.Child(T0, -1);
    beyond := f.Child(T0, 2);
  }

  /** `testTree` and `testGetValue`: the values the constructor stored. */
  method Values() returns (zero: string, ten: string)
    ensures zero == "zero" && ten == "ten"
  {
    var f := SetUp();
    zero := f.Value(T0);
    ten := f.Value(T10);
  }

  /** `testNumberOfChildren`: the child counts of "zero" to "six". */
  method Counts() returns (counts: seq<nat>)
    ensures counts == [2, 2, 2, 0, 1, 4, 0]
  {
    var f := SetUp();
    counts := [f.NumberOfChildren(T0), f.NumberOfChildren(T1), f.NumberOfChildren(T2), f.NumberOfChildren(T3),
               f.NumberOfChildren(T4), f.NumberOfChildren(T5), f.NumberOfChildren(T6)];
  }

  /** `testIsLeaf`: "zero", "two" and "four" have children; "three", "six"
      and "ten" do not. */
  method Leaves() returns (leaf0: bool, leaf2: bool, leaf4: bool, leaf3: bool, leaf6: bool, leaf10: bool)
    ensures !leaf0 && !leaf2 && !leaf4 && leaf3 && leaf6 && leaf10
  {
    var f := SetUp();
    leaf0, leaf2, leaf4 := f.IsLeaf(T0), f.IsLeaf(T2), f.IsLeaf(T4);
    leaf3, leaf6, leaf10 := f.IsLeaf(T3), f.IsLeaf(T6), f.IsLeaf(T10);
  }

  /** `testChildren`: iterating over "five" visits "seven", "eight",
      "nine" and "ten", and then nothing. */
  method ChildrenOfFive() returns (kids: seq<NodeId>)
    ensures kids == [T7, T8, T9, T10]
  {
    var f := SetUp();
    kids := f.Children(T5);
  }

  /** `testSetValue`, on the string tree: "zero" now holds "a billion", and
      its children are still "one" and "two". */
  method SetValueZero() returns (value: string, kids: seq<NodeId>)
    ensures value == "a billion" && kids == [T1, T2]
  {
    var f := SetUp();
    f.SetValue(T0, "a billion");
    value := f.Value(T0);
    kids := f.Children(T0);
  }

  /** The lemmas below hold for any ranking of the fixture: rendering and
      reachability do not depend on it. */
  lemma RenderNode(F: seq<Node<string>>, R: seq<nat>, t: NodeId, indent: string)
    requires Ranked(F, R) && t < |F|
    ensures Render(F, R, Show, t, indent) ==
            indent + F[t].value + "\n" + RenderChildren(F, R, Show, F[t].children, R[t], indent + "  ")
  {
  }

  lemma RenderLeaf(F: seq<Node<string>>, R: seq<nat>, t: NodeId, indent: string)
    requires Ranked(F, R) && t < |F| && F[t].children == []
    ensures Render(F, R, Show, t, indent) == indent + F[t].value + "\n"
  {
    RenderNode(F, R, t, indent);
    assert RenderChildren(F, R, Show, [], R[t], indent + "  ") == "";
  }

  lemma RenderChildrenCons(F: seq<Node<string>>, R: seq<nat>, kids: seq<NodeId>, bound: nat, indent: string)
    requires Ranked(F, R)
    requires kids != [] && forall i :: 0 <= i < |kids| ==> kids[i] < |F| && R[kids[i]] < bound
    ensures RenderChildren(F, R, Show, kids, bound, indent) ==
            Render(F, R, Show, kids[0], indent) + RenderChildren(F, R, Show, kids[1..], bound, indent)
  {
  }

  /** A leaf child followed by the rendering of its later siblings. */
  lemma LeafThenRest(F: seq<Node<string>>, R: seq<nat>, kids: seq<NodeId>, bound: nat, indent: string)
    requires Ranked(F, R) && kids != []
    requires forall i :: 0 <= i < |kids| ==> kids[i] < |F| && R[kids[i]] < bound
    requires F[kids[0]].children == []
    ensures RenderChildren(F, R, Show, kids, bound, indent) ==
            indent + F[kids[0]].value + "\n" + RenderChildren(F, R, Show, kids[1..], bound, indent)
  {
    RenderChildrenCons(F, R, kids, bound, indent);
    RenderLeaf(F, R, kids[0], indent);
  }

  /** "four" with its one leaf, at any indentation. */
  lemma RenderFourAt(F: seq<Node<string>>, R: seq<nat>, indent: string)
    requires IsFixture(F) && Ranked(F, R)
    ensures Render(F, R, Show, T4, indent) == indent + "four" + "\n" + (indent + "  " + "six" + "\n")
  {
    var kids := F[T4].children;
    assert R[kids[0]] < R[T4];
    LeafThenRest(F, R, kids, R[T4], indent + "  ");
    assert kids[1..] == [];
    RenderNode(F, R, T4, indent);
  }

  /** `t4.toString()`, as the tests expect it, byte for byte. */
  lemma RenderFour(F: seq<Node<string>>, R: seq<nat>)
    requires IsFixture(F) && Ranked(F, R)
    ensures ToString(F, R, Show, T4) == "four\n  six\n"
  {
    RenderFourAt(F, R, "");
    assert "" + "four" + "\n" + ("" + "  " + "six" + "\n") == "four\n  six\n";
  }

  /** The children of "one", one level in: the leaf "three", then the
      shared "four" with its own child. */
  lemma OneChildren(F: seq<Node<string>>, R: seq<nat>)
    requires IsFixture(F) && Ranked(F, R)
    ensures RenderChildren(F, R, Show, F[T1].children, R[T1], "  ") == "  three\n" + "  four\n    six\n"
  {
    var kids := F[T1].children;
    assert R[kids[0]] < R[T1] && R[kids[1]] < R[T1];
    LeafThenRest(F, R, kids, R[T1], "  ");
    RenderChildrenCons(F, R, kids[1..], R[T1], "  ");
    assert kids[1..][1..] == [];
    RenderFourAt(F, R, "  ");
    assert "  " + "four" + "\n" + ("  " + "  " + "six" + "\n") == "  four\n    six\n";
    assert "  " + "three" + "\n" == "  three\n";
  }

  /** `t1.toString()`: the shared "four" appears with its own child (the
      expected text of the test, split after its first and second lines). */
  lemma RenderOne(F: seq<Node<string>>, R: seq<nat>)
    requires IsFixture(F) && Ranked(F, R)
    ensures ToString(F, R, Show, T1) == "one\n" + ("  three\n" + "  four\n    six\n")
  {
    RenderNode(F, R, T1, "");
    OneChildren(F, R);
    assert "" + "  " == "  " && "" + "one" + "\n" == "one\n";
  }

  /** The last two leaves of "five", one level in. */
  lemma FiveLastLeaves(F: seq<Node<string>>, R: seq<nat>)
    requires IsFixture(F) && Ranked(F, R)
    ensures RenderChildren(F, R, Show, F[T5].children[2..], R[T5], "  ") == "  nine\n" + "  ten\n"
  {
    var b, kids := R[T5], F[T5].children[2..];
    assert R[kids[0]] < b && R[kids[1]] < b;
    LeafThenRest(F, R, kids, b, "  ");
    LeafThenRest(F, R, kids[1..], b, "  ");
    assert kids[1..][1..] == [];
    assert "  " + "nine" + "\n" == "  nine\n" && "  " + "ten" + "\n" + "" == "  ten\n";
  }

  /** The last three leaves of "five", one level in. */
  lemma FiveLaterLeaves(F: seq<Node<string>>, R: seq<nat>)
    requires IsFixture(F) && Ranked(F, R)
    ensures RenderChildren(F, R, Show, F[T5].children[1..], R[T5], "  ") == "  eight\n" + ("  nine\n" + "  ten\n")
  {
    var b, kids := R[T5], F[T5].children[1..];
    assert R[kids[0]] < b && R[kids[1]] < b && R[kids[2]] < b;
    LeafThenRest(F, R, kids, b, "  ");
    assert kids[1..] == F[T5].children[2..];
    FiveLastLeaves(F, R);
    assert "  " + "eight" + "\n" == "  eight\n";
  }

  /** The four leaves of "five", one level in, in order. */
  lemma FiveLeaves(F: seq<Node<string>>, R: seq<nat>)
    requires IsFixture(F) && Ranked(F, R)
    ensures RenderChildren(F, R, Show, F[T5].children, R[T5], "  ") ==
            "  seven\n" + ("  eight\n" + ("  nine\n" + "  ten\n"))
  {
    var b, kids := R[T5], F[T5].children;
    assert R[kids[0]] < b && R[kids[1]] < b && R[kids[2]] < b && R[kids[3]] < b;
    LeafThenRest(F, R, kids, b, "  ");
    FiveLaterLeaves(F, R);
    assert "  " + "seven" + "\n" == "  seven\n";
  }

  /** `t5.toString()`: "five", then its four leaves one level in, in order
      (the expected text of the test, written line by line). */
  lemma RenderFive(F: seq<Node<string>>, R: seq<nat>)
    requires IsFixture(F) && Ranked(F, R)
    ensures ToString(F, R, Show, T5) == "five\n" + ("  seven\n" + ("  eight\n" + ("  nine\n" + "  ten\n")))
  {
    RenderNode(F, R, T5, "");
    FiveLeaves(F, R);
    assert "" + "  " == "  " && "" + "five" + "\n" == "five\n";
  }

  /** A leaf contains only itself. */
  lemma LeafContains(nodes: seq<Node<string>>, rank: seq<nat>, t: NodeId, b: NodeId)
    requires Ranked(nodes, rank) && t < |nodes| && nodes[t].children == []
    ensures Contains(nodes, rank, t, b) <==> t == b
  {
  }

  /** "seven" is in neither "one"'s subtree nor is "one" in "seven"'s. */
  lemma OneAndSevenApart(F: seq<Node<string>>, R: seq<nat>)
    requires IsFixture(F) && Ranked(F, R)
    ensures !Contains(F, R, T1, T7) && !Contains(F, R, T7, T1)
  {
    LeafContains(F, R, T6, T7);
    LeafContains(F, R, T3, T7);
    LeafContains(F, R, T7, T1);
    assert !Contains(F, R, T4, T7);
  }

  /** `testAddChildTreeOfVDuplicateException`: once "seven" is a child of
      "one", adding it under "zero" is refused, since "zero" now reaches it
      through "one". */
  method AddChildDuplicate() returns (first: Outcome, second: Outcome)
    ensures first == Pass && second == Fail(IllegalArgument)
  {
    var f := SetUp();
    OneAndSevenApart(f.nodes, f.rank);
    first := f.AddChild(T1, T7);
    assert f.nodes[T0].children == [T1, T2] && f.nodes[T1].children == [T3, T4, T7];
    ContainsViaChild(f.nodes, f.rank, T1, 2, T7);
    ContainsViaChild(f.nodes, f.rank, T0, 0, T7);
    second := f.AddChild(T0, T7);
  }

  /** `testAddChildTreeOfVLoopException`: "zero" reaches "seven", so making
      "zero" a child of "seven" is refused and the heap is still the
      fixture. */
  method AddChildLoop() returns (r: Outcome, after: seq<Node<string>>)
    ensures r == Fail(IllegalArgument) && IsFixture(after)
  {
    var f := SetUp();
    var F := f.nodes;
    assert F[T5].children[0] == T7 && F[T2].children[1] == T5 && F[T0].children[1] == T2;
    ContainsViaChild(F, f.rank, T5, 0, T7);
    ContainsViaChild(F, f.rank, T2, 1, T7);
    ContainsViaChild(F, f.rank, T0, 1, T7);
    r := f.AddChild(T7, T0);
    after := f.nodes;
  }

  /** `testAddChildTreeOfV`: a new leaf "eleven" appended to "five" becomes
      its fifth child. */
  method AddChildEleven() returns (r: Outcome, count: nat, fifth: Result<NodeId>, name: string)
    ensures r == Pass && count == 5 && fifth.Ok? && name == "eleven"
  {
    var f := SetUp();
    var t11 := f.NewTree("eleven", []);
    ghost var before, rank0 := f.nodes, f.rank;
    assert before[t11].children == [];
    assert !Contains(before, rank0, t11, T5);
    ContainsOrphan(before, rank0, T5, t11);
    assert AttachCheck(before, rank0, T5, t11) == Pass;
    r := f.AddChild(T5, t11);
    count := f.NumberOfChildren(T5);
    fifth := f.Child(T5, 4);
    assert f.Children(T5) == [T7, T8, T9, T10, t11];
    name := f.Value(fifth.value);
  }

  /** `testAddChildIntTreeOfV`: a new leaf inserted at index 2 of "five"
      lands between "eight" and "nine". */
  method AddChildAtTwo() returns (r: Outcome, count: nat, values: seq<string>)
    ensures r == Pass && count == 5 && values == ["seven", "eight", "eleven", "nine", "ten"]
  {
    var f := SetUp();
    var t11 := f.NewTree("eleven", []);
    ghost var before, rank0 := f.nodes, f.rank;
    assert before[t11].children == [];
    assert !Contains(before, rank0, t11, T5);
    ContainsOrphan(before, rank0, T5, t11);
    assert AttachCheck(before, rank0, T5, t11) == Pass;
    assert InsertCheck(before, rank0, T5, 2, t11) == Pass;
    r := f.AddChildAt(T5, 2, t11);
    count := f.NumberOfChildren(T5);
    var kids := f.Children(T5);
    assert kids == Inserted([T7, T8, T9, T10], 2, t11);
    assert kids[0] == T7 && kids[1] == T8 && kids[2] == t11 && kids[3] == T9 && kids[4] == T10;
    values := [f.Value(kids[0]), f.Value(kids[1]), f.Value(kids[2]), f.Value(kids[3]), f.Value(kids[4])];
  }

  /** `testRemoveChild`: removing at 0, then 1, then 1 hands back "seven",
      "nine" and "ten"; "five" is left with "eight", "nine", "ten", then
      "eight", "ten", and finally "eight" alone. */
  method RemoveChildren() returns (a: Result<NodeId>, b: Result<NodeId>, c: Result<NodeId>,
                                   mid1: seq<NodeId>, mid2: seq<NodeId>, left: seq<NodeId>)
    ensures a == Ok(T7) && b == Ok(T9) && c == Ok(T10)
    ensures mid1 == [T8, T9, T10] && mid2 == [T8, T10] && left == [T8]
  {
    var f := SetUp();
    a := f.RemoveChild(T5, 0);
    mid1 := f.Children(T5);
    b := f.RemoveChild(T5, 1);
    mid2 := f.Children(T5);
    c := f.RemoveChild(T5, 1);
    left := f.Children(T5);
  }

  /** `testRemoveChildException`: index 4 of "five" and index 0 of the leaf
      "six" do not exist. */
  method RemoveChildMissing() returns (a: Result<NodeId>, b: Result<NodeId>)
    ensures a == Err(NoSuchElement) && b == Err(NoSuchElement)
  {
    var f := SetUp();
    a := f.RemoveChild(T5, 4);
    b := f.RemoveChild(T6, 0);
  }

  /** `testEqualsObject`, its equal cases: "zero" equals itself, and fresh
      copies of "zero", "one", "two" and "three" over the same children
      equal the originals. */
  method EqualsCopies() returns (self0: bool, same0: bool, same1: bool, same2: bool, same3: bool)
    ensures self0 && same0 && same1 && same2 && same3
  {
    var f := SetUp();
    var equals3 := f.NewTree("three", []);
    var equals2 := f.NewTree("two", [T4, T5]);
    var equals1 := f.NewTree("one", [T3, T4]);
    var equals0 := f.NewTree("zero", [T1, T2]);
    EqualReflexive(f.nodes, f.rank, T0);
    EqualIgnoresIdentity(f.nodes, f.rank, equals0, T0);
    EqualIgnoresIdentity(f.nodes, f.rank, equals1, T1);
    EqualIgnoresIdentity(f.nodes, f.rank, equals2, T2);
    EqualIgnoresIdentity(f.nodes, f.rank, equals3, T3);
    self0 := Equal(f.nodes, f.rank, T0, T0);
    same0 := Equal(f.nodes, f.rank, equals0, T0);
    same1 := Equal(f.nodes, f.rank, equals1, T1);
    same2 := Equal(f.nodes, f.rank, equals2, T2);
    same3 := Equal(f.nodes, f.rank, equals3, T3);
  }

  /** `testEqualsObject`, its unequal cases: a different value ("notzero"
      over the children of "zero"), a different value and child count
      ("one" over "three" against "two"), and a different child count ("two"
      over "six" alone against "two"). */
  method EqualsCases() returns (not0: bool, not1: bool, not2: bool)
    ensures !not0 && !not1 && !not2
  {
    var f := SetUp();
    var notZero := f.NewTree("notzero", [T1, T2]);
    var notOne := f.NewTree("one", [T3]);
    var notTwo := f.NewTree("two", [T6]);
    not0 := Equal(f.nodes, f.rank, notZero, T0);
    not1 := Equal(f.nodes, f.rank, notOne, T2);
    not2 := Equal(f.nodes, f.rank, notTwo, T2);
  }

  /** One accepted argument of `addChildren`: it is appended and the rest
      follow on the new store. */
  lemma AddAllAccepts(nodes: seq<Node<string>>, rank: seq<nat>, p: NodeId, c: NodeId, rest: seq<NodeId>,
                      kids: seq<NodeId>)
    requires Ranked(nodes, rank) && p < |nodes| && c < |nodes| && forall i :: 0 <= i < |rest| ==> rest[i] < |nodes|
    requires AttachCheck(nodes, rank, p, c) == Pass && kids == nodes[p].children + [c]
    ensures Ranked(Relink(nodes, p, kids), AttachRank(nodes, rank, p, c))
    ensures AddAll(nodes, rank, p, [c] + rest) == AddAll(Relink(nodes, p, kids), AttachRank(nodes, rank, p, c), p, rest)
  {
    AttachKeepsRanked(nodes, rank, p, c, kids);
    assert ([c] + rest)[1..] == rest;
  }

  /** A refused argument of `addChildren` ends the call with nothing more
      changed. */
  lemma AddAllRefuses(nodes: seq<Node<string>>, rank: seq<nat>, p: NodeId, cs: seq<NodeId>)
    requires Ranked(nodes, rank) && p < |nodes| && cs != [] && forall i :: 0 <= i < |cs| ==> cs[i] < |nodes|
    requires AttachCheck(nodes, rank, p, cs[0]).Fail?
    ensures AddAll(nodes, rank, p, cs) == (AttachCheck(nodes, rank, p, cs[0]), nodes, rank)
  {
  }

  lemma DuplicateFirst(F: seq<Node<string>>, R: seq<nat>)
    requires IsFixture(F) && Ranked(F, R)
    ensures AttachCheck(F, R, T5, T6) == Pass
  {
    LeafContains(F, R, T6, T5);
    LeafContains(F, R, T7, T6);
    LeafContains(F, R, T8, T6);
    LeafContains(F, R, T9, T6);
    LeafContains(F, R, T10, T6);
  }

  lemma DuplicateSecond(F1: seq<Node<string>>, R1: seq<nat>)
    requires T5 < |F1| && F1[T5].children == [T7, T8, T9, T10, T6] && Ranked(F1, R1)
    ensures AttachCheck(F1, R1, T5, T8) == Fail(IllegalArgument)
  {
    assert F1[T5].children[1] == T8;
    ContainsViaChild(F1, R1, T5, 1, T8);
  }

  lemma DuplicateOutcome(F: seq<Node<string>>, R: seq<nat>)
    requires IsFixture(F) && Ranked(F, R)
    ensures AddAll(F, R, T5, [T6, T8]).0 == Fail(IllegalArgument)
    ensures AddAll(F, R, T5, [T6, T8]).1 == Relink(F, T5, [T7, T8, T9, T10, T6])
  {
    DuplicateFirst(F, R);
    assert F[T5].children + [T6] == [T7, T8, T9, T10, T6];
    AddAllAccepts(F, R, T5, T6, [T8], [T7, T8, T9, T10, T6]);
    assert [T6] + [T8] == [T6, T8];
    var F1, R1 := Relink(F, T5, [T7, T8, T9, T10, T6]), AttachRank(F, R, T5, T6);
    DuplicateSecond(F1, R1);
    AddAllRefuses(F1, R1, T5, [T8]);
  }

  /** `testAddChildrenDuplicateException`: "six" is appended to "five", then
      "eight", already a child, is refused; the append before it stays. */
  method AddChildrenDuplicate() returns (r: Outcome, kids: seq<NodeId>)
    ensures r == Fail(IllegalArgument) && kids == [T7, T8, T9, T10, T6]
  {
    var f := SetUp();
    DuplicateOutcome(f.nodes, f.rank);
    r := f.AddChildren(T5, [T6, T8]);
    kids := f.Children(T5);
  }

  lemma LoopFirst(F: seq<Node<string>>, R: seq<nat>)
    requires IsFixture(F) && Ranked(F, R)
    ensures AttachCheck(F, R, T4, T7) == Pass
  {
    LeafContains(F, R, T6, T7);
    LeafContains(F, R, T7, T4);
  }

  lemma LoopSecond(F: seq<Node<string>>, F1: seq<Node<string>>, R1: seq<nat>)
    requires IsFixture(F) && F1 == Relink(F, T4, [T6, T7]) && Ranked(F1, R1)
    ensures AttachCheck(F1, R1, T4, T8) == Pass
  {
    LeafContains(F1, R1, T6, T8);
    LeafContains(F1, R1, T7, T8);
    LeafContains(F1, R1, T8, T4);
  }

  lemma LoopThird(F: seq<Node<string>>, F2: seq<Node<string>>, R2: seq<nat>)
    requires IsFixture(F) && F2 == Relink(F, T4, [T6, T7, T8]) && Ranked(F2, R2)
    ensures AttachCheck(F2, R2, T4, T1) == Fail(IllegalArgument)
  {
    assert F2[T1].children[1] == T4;
    ContainsViaChild(F2, R2, T1, 1, T4);
  }

  lemma LoopTail(F: seq<Node<string>>, F1: seq<Node<string>>, R1: seq<nat>)
    requires IsFixture(F) && F1 == Relink(F, T4, [T6, T7]) && Ranked(F1, R1)
    ensures AddAll(F1, R1, T4, [T8, T1]).0 == Fail(IllegalArgument)
    ensures AddAll(F1, R1, T4, [T8, T1]).1 == Relink(F, T4, [T6, T7, T8])
  {
    LoopSecond(F, F1, R1);
    assert F1[T4].children + [T8] == [T6, T7, T8];
    AddAllAccepts(F1, R1, T4, T8, [T1], [T6, T7, T8]);
    assert [T8] + [T1] == [T8, T1];
    var F2, R2 := Relink(F1, T4, [T6, T7, T8]), AttachRank(F1, R1, T4, T8);
    RelinkTwice(F, T4, [T6, T7], [T6, T7, T8]);
    LoopThird(F, F2, R2);
    AddAllRefuses(F2, R2, T4, [T1]);
  }

  lemma LoopHead(F: seq<Node<string>>, R: seq<nat>)
    requires IsFixture(F) && Ranked(F, R)
    ensures Ranked(Relink(F, T4, [T6, T7]), AttachRank(F, R, T4, T7))
    ensures AddAll(F, R, T4, [T7, T8, T1]) == AddAll(Relink(F, T4, [T6, T7]), AttachRank(F, R, T4, T7), T4, [T8, T1])
  {
    LoopFirst(F, R);
    assert F[T4].children + [T7] == [T6, T7];
    AddAllAccepts(F, R, T4, T7, [T8, T1], [T6, T7]);
    assert [T7] + [T8, T1] == [T7, T8, T1];
  }

  lemma LoopOutcome(F: seq<Node<string>>, R: seq<nat>)
    requires IsFixture(F) && Ranked(F, R)
    ensures AddAll(F, R, T4, [T7, T8, T1]).0 == Fail(IllegalArgument)
    ensures AddAll(F, R, T4, [T7, T8, T1]).1 == Relink(F, T4, [T6, T7, T8])
  {
    LoopHead(F, R);
    LoopTail(F, Relink(F, T4, [T6, T7]), AttachRank(F, R, T4, T7));
  }

  /** A node that is not `b` and whose children are leaves other than `b`
      does not contain `b`. */
  lemma ContainsAmongLeaves(nodes: seq<Node<string>>, rank: seq<nat>, a: NodeId, b: NodeId)
    requires Ranked(nodes, rank) && a < |nodes| && a != b && b !in nodes[a].children
    requires forall i :: 0 <= i < |nodes[a].children| ==> nodes[nodes[a].children[i]].children == []
    ensures !Contains(nodes, rank, a, b)
  {
    forall j | 0 <= j < |nodes[a].children|
      ensures !Contains(nodes, rank, nodes[a].children[j], b)
    {
      LeafContains(nodes, rank, nodes[a].children[j], b);
    }
  }

  /** `addChildren` of distinct leaves, none of them already a child, onto
      a node whose children are leaves is accepted in full. */
  lemma {:induction false} AppendLeaves(nodes: seq<Node<string>>, rank: seq<nat>, p: NodeId, cs: seq<NodeId>)
    requires Ranked(nodes, rank) && p < |nodes|
    requires forall i :: 0 <= i < |nodes[p].children| ==> nodes[nodes[p].children[i]].children == []
    requires forall i :: 0 <= i < |cs| ==> cs[i] < |nodes| && cs[i] != p && nodes[cs[i]].children == []
    requires forall i :: 0 <= i < |cs| ==> cs[i] !in nodes[p].children
    requires forall i, j :: 0 <= i < j < |cs| ==> cs[i] != cs[j]
    ensures AddAll(nodes, rank, p, cs).0 == Pass
    decreases |cs|
  {
    if cs != [] {
      var c, rest := cs[0], cs[1..];
      ContainsAmongLeaves(nodes, rank, p, c);
      LeafContains(nodes, rank, c, p);
      var kids := nodes[p].children + [c];
      AddAllAccepts(nodes, rank, p, c, rest, kids);
      assert [c] + rest == cs;
      var after := Relink(nodes, p, kids);
      forall i | 0 <= i < |kids|
        ensures after[kids[i]].children == []
      {
        if i < |nodes[p].children| {
          assert rank[kids[i]] < rank[p];
        }
      }
      forall i | 0 <= i < |rest|
        ensures rest[i] !in kids
      {
        assert rest[i] == cs[i + 1];
      }
      AppendLeaves(after, AttachRank(nodes, rank, p, c), p, rest);
    }
  }

  /** `testAddChildren`: the leaves "seven" to "ten" appended to the leaf
      "three" become its four children, in order. */
  method AddChildrenToThree() returns (r: Outcome, kids: seq<NodeId>)
    ensures r == Pass && kids == [T7, T8, T9, T10]
  {
    var f := SetUp();
    var cs := [T7, T8, T9, T10];
    AppendLeaves(f.nodes, f.rank, T3, cs);
    var k := AddAllAppendsPrefix(f.nodes, f.rank, T3, cs);
    assert f.nodes[T3].children + cs[..k] == cs;
    r := f.AddChildren(T3, cs);
    kids := f.Children(T3);
  }

  /** `testAddChildrenLoopException`: "seven" and "eight" are appended to
      "four", then "one" is refused because it already contains "four". */
  method AddChildrenLoop() returns (r: Outcome, kids: seq<NodeId>)
    ensures r == Fail(IllegalArgument) && kids == [T6, T7, T8]
  {
    var f := SetUp();
    LoopOutcome(f.nodes, f.rank);
    r := f.AddChildren(T4, [T7, T8, T1]);
    kids := f.Children(T4);
  }
}
