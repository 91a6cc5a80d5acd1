/**
 * The documents of the resolver's own test suite, checked against the
 * model: what `findRefs` collects, and what `resolveRefs` writes.
 */
module JsonSchemaRefsExamples {
  import opened Wrappers
  import opened Strings
  import opened JsonDoc
  import opened JsonSchemaRefs

  /** The pointers of the sibling fixture, spelled out. */
  lemma SiblingLiterals()
    ensures "#" + "/" + "ett" == "#/ett"
    ensures "#" + "/" + "två" == "#/två"
    ensures "#" + "/" + "tre" == "#/tre"
    ensures "#/" + "ett" == "#/ett"
    ensures "#/" + "tre" == "#/tre"
    ensures "#/" + "två" == "#/två"
  {
  }

  /** The pointers of the nested and circular fixtures, spelled out. */
  lemma NestedLiterals()
    ensures "#" + "/" + "a" == "#/a"
    ensures "#/a" + "/" + "b" == "#/a/b"
    ensures "#/a" + "/" + "c" == "#/a/c"
    ensures "#" + "/" + "tre" == "#/tre"
    ensures "#/" + "a" + "/" + "b" == "#/a/b"
    ensures "#/" + "a" + "/" + "c" == "#/a/c"
    ensures "#/a/" + "b" == "#/a/b" && "#/a/" + "c" == "#/a/c"
  {
  }

  /** The pointers of the filter fixture, spelled out. */
  lemma FilterLiterals()
    ensures "#" + "/" + "source" == "#/source"
    ensures "#" + "/" + "resolveThis" == "#/resolveThis"
    ensures "#" + "/" + "notThis" == "#/notThis"
    ensures "#/" + "resolveThis" == "#/resolveThis"
    ensures "#/" + "source" == "#/source"
  {
  }

  /** `{ ett: { $ref: '#/två' }, två: { $ref: '#/tre' }, tre: { succe: true } }`, the root being node 3. */
  function SiblingHeap(): Heap {
    map[
      0 := [("succe", Bool(true))],
      1 := [("$ref", Str("#/två"))],
      2 := [("$ref", Str("#/tre"))],
      3 := [("ett", Obj(1)), ("två", Obj(2)), ("tre", Obj(0))]
    ]
  }

  /** A chain of two pointers collapses: both edges end at `#/tre`. */
  lemma SiblingRefs()
    ensures Ranked(SiblingHeap())
    ensures FindNode(SiblingHeap(), 3, [], "#") == [("#/ett", Str("#/tre")), ("#/två", Str("#/tre"))]
  {
    SiblingNodes(SiblingHeap());
    SiblingWalk(SiblingHeap());
  }

  lemma SiblingNodes(h: Heap)
    requires h == SiblingHeap()
    ensures Ranked(h) && NodeEntries(h, 3) == [("ett", Obj(1)), ("två", Obj(2)), ("tre", Obj(0))]
    ensures Get(h, Obj(1), "$ref") == Str("#/två") && Get(h, Obj(2), "$ref") == Str("#/tre")
    ensures NodeEntries(h, 0) == [("succe", Bool(true))]
  {
  }

  /** `findRefs` on the sibling fixture, from the facts about its nodes. */
  lemma SiblingWalk(h: Heap)
    requires Ranked(h) && NodeEntries(h, 3) == [("ett", Obj(1)), ("två", Obj(2)), ("tre", Obj(0))]
    requires Get(h, Obj(1), "$ref") == Str("#/två") && Get(h, Obj(2), "$ref") == Str("#/tre")
    requires NodeEntries(h, 0) == [("succe", Bool(true))]
    ensures FindNode(h, 3, [], "#") == [("#/ett", Str("#/tre")), ("#/två", Str("#/tre"))]
  {
    SiblingLiterals();
    var acc1 := RecordRef([], "#/ett", Str("#/två"));
    var acc2 := RecordRef(acc1, "#/två", Str("#/tre"));
    SiblingRecords();
    FindStep(h, 3, 0, [], "#");
    FindStep(h, 3, 1, acc1, "#");
    FindStep(h, 3, 2, acc2, "#");
    assert Get(h, Obj(0), "$ref") == Undef;
    LeafFind(h, 0, acc2, "#/tre");
    assert FindFrom(h, 3, 3, acc2, "#") == acc2;
  }

  lemma SiblingRecords()
    ensures RecordRef([], "#/ett", Str("#/två")) == [("#/ett", Str("#/två"))]
    ensures RecordRef([("#/ett", Str("#/två"))], "#/två", Str("#/tre")) == [("#/ett", Str("#/tre")), ("#/två", Str("#/tre"))]
  {
  }

  /** One turn of the loop of `findRefs` at an entry holding an object. */
  lemma FindStep(h: Heap, id: NodeId, i: nat, refs: seq<Ref>, path: string)
    requires Ranked(h) && i < |NodeEntries(h, id)| && NodeEntries(h, id)[i].1.Obj?
    ensures var e := NodeEntries(h, id)[i];
      var r := Get(h, e.1, "$ref");
      var keyPath := path + "/" + e.0;
      FindFrom(h, id, i, refs, path) ==
        FindFrom(h, id, i + 1, if Truthy(r) then RecordRef(refs, keyPath, r) else FindNode(h, e.1.id, refs, keyPath), path)
  {
  }

  /** A node holding no object adds no edge. */
  lemma LeafFind(h: Heap, id: NodeId, refs: seq<Ref>, path: string)
    requires Ranked(h) && forall m :: 0 <= m < |NodeEntries(h, id)| ==> !NodeEntries(h, id)[m].1.Obj?
    ensures FindNode(h, id, refs, path) == refs
  {
    LeafFindFrom(h, id, 0, refs, path);
  }

  lemma {:induction false} LeafFindFrom(h: Heap, id: NodeId, i: nat, refs: seq<Ref>, path: string)
    requires Ranked(h) && i <= |NodeEntries(h, id)|
    requires forall m :: 0 <= m < |NodeEntries(h, id)| ==> !NodeEntries(h, id)[m].1.Obj?
    ensures FindFrom(h, id, i, refs, path) == refs
    decreases |NodeEntries(h, id)| - i
  {
    if i < |NodeEntries(h, id)| {
      LeafFindFrom(h, id, i + 1, refs, path);
    }
  }

  /** `'#/' + k` names the key `k` of the root. */
  lemma TopPointer(k: string)
    requires '/' !in k
    ensures Split("#/" + k, "/") == ["#", k]
    ensures SourcePath("#/" + k) == [k]
    ensures TargetParentPath("#/" + k) == []
    ensures TargetKey("#/" + k) == k
  {
    NoOccurrenceOfChar("#", '/');
    SplitWithoutSeparator("#", "/", "");
    assert "" + "#" == "#";
    assert "#/" + k == "#" + "/" + k;
    SplitPathAppend("#", k);
  }

  /** `'#/' + a + '/' + b` names the key `b` of the key `a` of the root. */
  lemma NestedPointer(a: string, b: string)
    requires '/' !in a && '/' !in b
    ensures SourcePath("#/" + a + "/" + b) == [a, b]
    ensures TargetParentPath("#/" + a + "/" + b) == [a]
    ensures TargetKey("#/" + a + "/" + b) == b
  {
    TopPointer(a);
    SplitPathAppend("#/" + a, b);
  }

  /** Walking one key from the root of a valid store. */
  lemma WalkOne(h: Heap, root: NodeId, k: string)
    ensures GetValueAtPath(h, Obj(root), [k]) == Get(h, Obj(root), k)
  {
    assert [k][1..] == [];
  }

  /** Two edges that are both written make a run without warnings or failure. */
  lemma ResolvePair(st0: Store, root: NodeId, e1: Ref, e2: Ref, o: Options, st1: Store, st2: Store)
    requires ResolveEdge(st0, root, e1, o) == Written(st1) && ResolveEdge(st1, root, e2, o) == Written(st2)
    ensures Resolve(st0, root, [e1, e2], o) == Run(st2, [], None)
  {
    ResolveSnoc(st0, root, [], e1, o);
    ResolveSnoc(st0, root, [e1], e2, o);
    assert [] + [e1] == [e1];
    assert [e1] + [e2] == [e1, e2];
  }

  /** One more edge after a run without failure. */
  lemma ResolveSnoc(st: Store, root: NodeId, refs: seq<Ref>, e: Ref, o: Options)
    ensures var prev := Resolve(st, root, refs, o);
      Resolve(st, root, refs + [e], o) ==
        if prev.failure.Some? then prev else Continue(prev, ResolveEdge(prev.st, root, e, o), e, o)
  {
    assert (refs + [e])[..|refs|] == refs;
  }

  /** Resolving the sibling edges without options makes `ett` and `två` the very object `tre`. */
  lemma SiblingAlias()
    ensures var h := SiblingHeap();
      var run := Resolve(Store(h, 4), 3, [("#/ett", Str("#/tre")), ("#/två", Str("#/tre"))], DefaultOptions);
      && run.failure.None? && run.warnings == []
      && Get(run.st.nodes, Obj(3), "ett") == Get(run.st.nodes, Obj(3), "tre") == Obj(0)
      && Get(run.st.nodes, Obj(3), "två") == Obj(0)
  {
    var h := SiblingHeap();
    var o := DefaultOptions;
    var e1 := ("#/ett", Str("#/tre"));
    var e2 := ("#/två", Str("#/tre"));
    var st0 := Store(h, 4);
    var st1 := SiblingFirst(st0, e1, o);
    var st2 := SiblingSecond(st1, e2, o);
    ResolvePair(st0, 3, e1, e2, o, st1, st2);
  }

  lemma SiblingFirst(st0: Store, e1: Ref, o: Options) returns (st1: Store)
    requires st0 == Store(SiblingHeap(), 4) && e1 == ("#/ett", Str("#/tre")) && o == DefaultOptions
    ensures ResolveEdge(st0, 3, e1, o) == Written(st1)
    ensures 3 in st1.nodes && Get(st1.nodes, Obj(3), "ett") == Obj(0) && Get(st1.nodes, Obj(3), "tre") == Obj(0)
  {
    SiblingSlot(st0, e1);
    st1 := AliasEdge(st0, e1, o, "ett", "tre");
  }

  /** The first sibling edge writes the root's `ett`, and its source is the root's `tre`. */
  lemma SiblingSlot(st0: Store, e1: Ref)
    requires st0 == Store(SiblingHeap(), 4) && e1 == ("#/ett", Str("#/tre"))
    ensures EdgeSlot(st0, 3, e1, Obj(0), 3, "ett") && Get(st0.nodes, Obj(3), "tre") == Obj(0)
  {
    SiblingLiterals();
    assert Get(st0.nodes, Obj(3), "tre") == Obj(0);
    TopEdgeSlot(st0, 3, e1, "ett", "tre");
  }

  /**
   * An edge from the root's `key` to the root's `src`, without `merge` or
   * `keepRefs`: `key` becomes the very object `src` holds, and every other
   * property of the root and every other node are kept.
   */
  lemma AliasEdge(st0: Store, e: Ref, o: Options, key: string, src: string) returns (st1: Store)
    requires EdgeSlot(st0, 3, e, Get(st0.nodes, Obj(3), src), 3, key) && Get(st0.nodes, Obj(3), src).Obj?
    requires !MergeOn(o.merge) && !KeepOn(o.keepRefs)
    ensures ResolveEdge(st0, 3, e, o) == Written(st1) && 3 in st1.nodes
    ensures Get(st1.nodes, Obj(3), key) == Get(st0.nodes, Obj(3), src)
    ensures forall k :: k != key ==> Get(st1.nodes, Obj(3), k) == Get(st0.nodes, Obj(3), k)
    ensures forall id :: id in st0.nodes && id != 3 ==> id in st1.nodes && st1.nodes[id] == st0.nodes[id]
  {
    ResolveAliases(st0, 3, e, o, Get(st0.nodes, Obj(3), src), 3, key);
    st1 := ResolveEdge(st0, 3, e, o).st;
  }

  lemma SiblingSecond(st1: Store, e2: Ref, o: Options) returns (st2: Store)
    requires 3 in st1.nodes && Get(st1.nodes, Obj(3), "ett") == Obj(0) && Get(st1.nodes, Obj(3), "tre") == Obj(0)
    requires e2 == ("#/två", Str("#/tre")) && o == DefaultOptions
    ensures ResolveEdge(st1, 3, e2, o) == Written(st2)
    ensures Get(st2.nodes, Obj(3), "ett") == Obj(0) && Get(st2.nodes, Obj(3), "tre") == Obj(0)
    ensures Get(st2.nodes, Obj(3), "två") == Obj(0)
  {
    SiblingLiterals();
    TopEdgeSlot(st1, 3, e2, "två", "tre");
    ResolveAliases(st1, 3, e2, o, Obj(0), 3, "två");
    st2 := ResolveEdge(st1, 3, e2, o).st;
  }

  /** `{ a: { b: { $ref: '#' } } }`, the root being node 2. */
  function CircularHeap(): Heap {
    map[
      0 := [("$ref", Str("#"))],
      1 := [("b", Obj(0))],
      2 := [("a", Obj(1))]
    ]
  }

  lemma CircularRefs()
    ensures Ranked(CircularHeap())
    ensures FindNode(CircularHeap(), 2, [], "#") == [("#/a/b", Str("#"))]
  {
    var h := CircularHeap();
    NestedLiterals();
    assert Get(h, Obj(1), "$ref") == Undef;
    assert Get(h, Obj(0), "$ref") == Str("#");
    var acc := RecordRef([], "#/a/b", Str("#"));
    assert acc == [("#/a/b", Str("#"))];
    assert FindFrom(h, 1, 0, [], "#/a") == acc;
    assert FindFrom(h, 2, 0, [], "#") == acc;
  }

  /** `{ a: { b: { $ref: '#/a/c' }, c: { $ref: '#/tre' } }, tre: { succe: true } }`, the root being node 4. */
  function NestedHeap(): Heap {
    map[
      0 := [("succe", Bool(true))],
      1 := [("$ref", Str("#/a/c"))],
      2 := [("$ref", Str("#/tre"))],
      3 := [("b", Obj(1)), ("c", Obj(2))],
      4 := [("a", Obj(3)), ("tre", Obj(0))]
    ]
  }

  /** A pointer to a later sibling inside a nested object collapses too: both edges end at `#/tre`. */
  lemma NestedRefs()
    ensures Ranked(NestedHeap())
    ensures FindNode(NestedHeap(), 4, [], "#") == [("#/a/b", Str("#/tre")), ("#/a/c", Str("#/tre"))]
  {
    NestedNodes(NestedHeap());
    NestedWalk(NestedHeap());
  }

  lemma NestedNodes(h: Heap)
    requires h == NestedHeap()
    ensures Ranked(h) && NodeEntries(h, 4) == [("a", Obj(3)), ("tre", Obj(0))]
    ensures NodeEntries(h, 3) == [("b", Obj(1)), ("c", Obj(2))]
    ensures Get(h, Obj(3), "$ref") == Undef && Get(h, Obj(0), "$ref") == Undef
    ensures Get(h, Obj(1), "$ref") == Str("#/a/c") && Get(h, Obj(2), "$ref") == Str("#/tre")
    ensures NodeEntries(h, 0) == [("succe", Bool(true))]
  {
    NestedShape(h);
    NestedRanked(h);
  }

  /** The five nodes of the nested fixture. */
  lemma NestedShape(h: Heap)
    requires h == NestedHeap()
    ensures h.Keys == {0, 1, 2, 3, 4}
    ensures h[0] == [("succe", Bool(true))] && h[1] == [("$ref", Str("#/a/c"))] && h[2] == [("$ref", Str("#/tre"))]
    ensures h[3] == [("b", Obj(1)), ("c", Obj(2))] && h[4] == [("a", Obj(3)), ("tre", Obj(0))]
  {
  }

  /** Every edge of the nested fixture points to a smaller node. */
  lemma NestedRanked(h: Heap)
    requires h.Keys == {0, 1, 2, 3, 4}
    requires h[0] == [("succe", Bool(true))] && h[1] == [("$ref", Str("#/a/c"))] && h[2] == [("$ref", Str("#/tre"))]
    requires h[3] == [("b", Obj(1)), ("c", Obj(2))] && h[4] == [("a", Obj(3)), ("tre", Obj(0))]
    ensures Ranked(h)
  {
    forall id, i | id in h && 0 <= i < |h[id]| && h[id][i].1.Obj?
      ensures h[id][i].1.id < id
    {
      assert id == 3 || id == 4;
    }
  }

  /** `findRefs` on the nested fixture, from the facts about its nodes. */
  lemma NestedWalk(h: Heap)
    requires Ranked(h) && NodeEntries(h, 4) == [("a", Obj(3)), ("tre", Obj(0))]
    requires NodeEntries(h, 3) == [("b", Obj(1)), ("c", Obj(2))]
    requires Get(h, Obj(3), "$ref") == Undef && Get(h, Obj(0), "$ref") == Undef
    requires Get(h, Obj(1), "$ref") == Str("#/a/c") && Get(h, Obj(2), "$ref") == Str("#/tre")
    requires NodeEntries(h, 0) == [("succe", Bool(true))]
    ensures FindNode(h, 4, [], "#") == [("#/a/b", Str("#/tre")), ("#/a/c", Str("#/tre"))]
  {
    NestedLiterals();
    var acc1 := RecordRef([], "#/a/b", Str("#/a/c"));
    var acc2 := RecordRef(acc1, "#/a/c", Str("#/tre"));
    NestedRecords();
    FindStep(h, 3, 0, [], "#/a");
    FindStep(h, 3, 1, acc1, "#/a");
    assert FindFrom(h, 3, 2, acc2, "#/a") == acc2;
    FindStep(h, 4, 0, [], "#");
    FindStep(h, 4, 1, acc2, "#");
    LeafFind(h, 0, acc2, "#/tre");
    assert FindFrom(h, 4, 2, acc2, "#") == acc2;
  }

  lemma NestedRecords()
    ensures RecordRef([], "#/a/b", Str("#/a/c")) == [("#/a/b", Str("#/a/c"))]
    ensures RecordRef([("#/a/b", Str("#/a/c"))], "#/a/c", Str("#/tre")) == [("#/a/b", Str("#/tre")), ("#/a/c", Str("#/tre"))]
  {
  }

  // ---------------------------------------------------------------------
  // The nested fixture resolved: aliasing, merging, and `keepRefs: 'pelle'`

  /** The two edges of the nested fixture. */
  const NestedEdges: seq<Ref> := [("#/a/b", Str("#/tre")), ("#/a/c", Str("#/tre"))]

  /** Without options, `a.b` and `a.c` both become the very object `tre`. */
  lemma NestedAlias()
    ensures var run := Resolve(Store(NestedHeap(), 5), 4, NestedEdges, DefaultOptions);
      var a := Get(run.st.nodes, Obj(4), "a");
      && run.failure.None? && run.warnings == []
      && Get(run.st.nodes, Obj(4), "tre") == Obj(0)
      && Get(run.st.nodes, a, "b") == Obj(0) && Get(run.st.nodes, a, "c") == Obj(0)
  {
    var st0 := Store(NestedHeap(), 5);
    var e1 := ("#/a/b", Str("#/tre"));
    var e2 := ("#/a/c", Str("#/tre"));
    NestedStore(st0);
    var st1, st2 := NestedAliasSteps(st0, e1, e2, DefaultOptions);
    ResolvePair(st0, 4, e1, e2, DefaultOptions, st1, st2);
    NestedRoot(st2.nodes);
  }

  /** The two aliasing writes of the nested fixture. */
  lemma NestedAliasSteps(st0: Store, e1: Ref, e2: Ref, o: Options) returns (st1: Store, st2: Store)
    requires e1 == ("#/a/b", Str("#/tre")) && e2 == ("#/a/c", Str("#/tre")) && o == DefaultOptions
    requires 4 in st0.nodes && st0.nodes[4] == [("a", Obj(3)), ("tre", Obj(0))] && 3 in st0.nodes
    ensures ResolveEdge(st0, 4, e1, o) == Written(st1) && ResolveEdge(st1, 4, e2, o) == Written(st2)
    ensures 4 in st2.nodes && st2.nodes[4] == [("a", Obj(3)), ("tre", Obj(0))]
    ensures Get(st2.nodes, Obj(3), "b") == Obj(0) && Get(st2.nodes, Obj(3), "c") == Obj(0)
  {
    assert "#/a/" + "b" == "#/a/b" && "#/a/" + "c" == "#/a/c";
    NestedSlot(st0, e1, "b");
    ResolveAliases(st0, 4, e1, o, Obj(0), 3, "b");
    st1 := ResolveEdge(st0, 4, e1, o).st;
    NestedSlot(st1, e2, "c");
    ResolveAliases(st1, 4, e2, o, Obj(0), 3, "c");
    st2 := ResolveEdge(st1, 4, e2, o).st;
  }

  /** With `{ merge: true }`, `a.b` and `a.c` both become exactly `{ succe: true }`, a copy of `tre`. */
  lemma NestedMerge()
    ensures var run := Resolve(Store(NestedHeap(), 5), 4, NestedEdges, Options(Merge, KeepFlag(false), Unset, None));
      var a := Get(run.st.nodes, Obj(4), "a");
      && run.failure.None? && run.warnings == []
      && EntriesOf(run.st.nodes, Get(run.st.nodes, a, "b")) == [("succe", Bool(true))]
      && EntriesOf(run.st.nodes, Get(run.st.nodes, a, "c")) == [("succe", Bool(true))]
      && EntriesOf(run.st.nodes, Get(run.st.nodes, Obj(4), "tre")) == [("succe", Bool(true))]
  {
    var o := Options(Merge, KeepFlag(false), Unset, None);
    var run := NestedMergeRun(Store(NestedHeap(), 5), NestedEdges, o);
    PlainFold([("$ref", Str("#/a/c"))], [("succe", Bool(true))]);
    PlainFold([("$ref", Str("#/tre"))], [("succe", Bool(true))]);
  }

  /** The options of the test: `{ merge: true, keepRefs: 'pelle' }`. */
  const PelleOptions: Options := Options(Merge, KeepName("pelle"), Unset, None)

  /**
   * Merging `#/tre` into `a.b` and `a.c` of the nested fixture with the
   * pointer kept under `pelle`: each becomes `{ succe: true, pelle: <its
   * own pointer> }`, exactly.
   */
  lemma ReplacingRef()
    ensures var run := Resolve(Store(NestedHeap(), 5), 4, NestedEdges, PelleOptions);
      var a := Get(run.st.nodes, Obj(4), "a");
      && run.failure.None? && run.warnings == []
      && EntriesOf(run.st.nodes, Get(run.st.nodes, a, "b")) == [("succe", Bool(true)), ("pelle", Str("#/a/c"))]
      && EntriesOf(run.st.nodes, Get(run.st.nodes, a, "c")) == [("succe", Bool(true)), ("pelle", Str("#/tre"))]
  {
    var run := NestedMergeRun(Store(NestedHeap(), 5), NestedEdges, PelleOptions);
    PelleFold([("$ref", Str("#/a/c"))], [("succe", Bool(true))]);
    PelleFold([("$ref", Str("#/tre"))], [("succe", Bool(true))]);
  }

  /** The nested edges under any merging options: `a.b` and `a.c` receive the folds of their layouts. */
  lemma NestedMergeRun(st0: Store, edges: seq<Ref>, o: Options) returns (run: Run)
    requires st0 == Store(NestedHeap(), 5) && edges == NestedEdges
    requires o.merge == Merge && o.unresolvable == Unset
    ensures run == Resolve(st0, 4, edges, o)
    ensures var a := Get(run.st.nodes, Obj(4), "a");
      && run.failure.None? && run.warnings == []
      && EntriesOf(run.st.nodes, Get(run.st.nodes, a, "b")) ==
           Assemble(Layout(Merge, [("$ref", Str("#/a/c"))], [("succe", Bool(true))]), o.keepRefs)
      && EntriesOf(run.st.nodes, Get(run.st.nodes, a, "c")) ==
           Assemble(Layout(Merge, [("$ref", Str("#/tre"))], [("succe", Bool(true))]), o.keepRefs)
      && EntriesOf(run.st.nodes, Get(run.st.nodes, Obj(4), "tre")) == [("succe", Bool(true))]
  {
    var e1 := ("#/a/b", Str("#/tre"));
    var e2 := ("#/a/c", Str("#/tre"));
    NestedStore(st0);
    var st1 := NestedMergeFirst(st0, e1, o);
    var st2 := NestedMergeSecond(st1, e2, o);
    ResolvePair(st0, 4, e1, e2, o, st1, st2);
    NestedRoot(st2.nodes);
    run := Run(st2, [], None);
  }

  /** The first edge merges `tre` into `a.b`, allocating node 5. */
  lemma NestedMergeFirst(st0: Store, e1: Ref, o: Options) returns (st1: Store)
    requires e1 == ("#/a/b", Str("#/tre")) && o.merge == Merge
    requires ValidStore(st0) && 4 in st0.nodes && st0.nodes[4] == [("a", Obj(3)), ("tre", Obj(0))]
    requires 0 in st0.nodes && st0.nodes[0] == [("succe", Bool(true))]
    requires 2 in st0.nodes && st0.nodes[2] == [("$ref", Str("#/tre"))] && 3 in st0.nodes
    requires Get(st0.nodes, Obj(3), "c") == Obj(2) && Get(st0.nodes, Obj(3), "b") == Obj(1)
    requires 1 in st0.nodes && st0.nodes[1] == [("$ref", Str("#/a/c"))] && st0.next == 5
    ensures ResolveEdge(st0, 4, e1, o) == Written(st1)
    ensures ValidStore(st1) && 4 in st1.nodes && st1.nodes[4] == [("a", Obj(3)), ("tre", Obj(0))]
    ensures 0 in st1.nodes && st1.nodes[0] == [("succe", Bool(true))]
    ensures 2 in st1.nodes && st1.nodes[2] == [("$ref", Str("#/tre"))] && 3 in st1.nodes
    ensures Get(st1.nodes, Obj(3), "c") == Obj(2)
    ensures Get(st1.nodes, Obj(3), "b") == Obj(5) && 5 in st1.nodes && st1.next == 6
    ensures st1.nodes[5] == Assemble(Layout(Merge, [("$ref", Str("#/a/c"))], [("succe", Bool(true))]), o.keepRefs)
  {
    assert "#/a/" + "b" == "#/a/b";
    NestedSlot(st0, e1, "b");
    ResolveMerges(st0, 4, e1, o, Obj(0), 3, "b");
    ResolveEdgeValid(st0, 4, e1, o);
    st1 := ResolveEdge(st0, 4, e1, o).st;
  }

  /** The second edge merges `tre` into `a.c`, allocating node 6 and keeping `a.b`. */
  lemma NestedMergeSecond(st1: Store, e2: Ref, o: Options) returns (st2: Store)
    requires e2 == ("#/a/c", Str("#/tre")) && o.merge == Merge
    requires ValidStore(st1) && 4 in st1.nodes && st1.nodes[4] == [("a", Obj(3)), ("tre", Obj(0))]
    requires 0 in st1.nodes && st1.nodes[0] == [("succe", Bool(true))]
    requires 2 in st1.nodes && st1.nodes[2] == [("$ref", Str("#/tre"))] && 3 in st1.nodes
    requires Get(st1.nodes, Obj(3), "c") == Obj(2)
    requires Get(st1.nodes, Obj(3), "b") == Obj(5) && 5 in st1.nodes && st1.next == 6
    ensures ResolveEdge(st1, 4, e2, o) == Written(st2)
    ensures 4 in st2.nodes && st2.nodes[4] == [("a", Obj(3)), ("tre", Obj(0))]
    ensures 0 in st2.nodes && st2.nodes[0] == [("succe", Bool(true))]
    ensures EntriesOf(st2.nodes, Get(st2.nodes, Obj(3), "b")) == st1.nodes[5]
    ensures EntriesOf(st2.nodes, Get(st2.nodes, Obj(3), "c")) ==
      Assemble(Layout(Merge, st1.nodes[2], st1.nodes[0]), o.keepRefs)
  {
    assert "#/a/" + "c" == "#/a/c";
    NestedSlot(st1, e2, "c");
    ResolveMerges(st1, 4, e2, o, Obj(0), 3, "c");
    st2 := ResolveEdge(st1, 4, e2, o).st;
  }

  /** The root of the nested fixture holds `a` and `tre`. */
  lemma NestedRoot(h: Heap)
    requires 4 in h && h[4] == [("a", Obj(3)), ("tre", Obj(0))]
    ensures Get(h, Obj(4), "a") == Obj(3) && Get(h, Obj(4), "tre") == Obj(0)
  {
    assert "tre" != "a";
    assert IndexOfKey(h[4], "a") == 0 && IndexOfKey(h[4], "tre") == 1;
  }

  /** The nodes of the nested fixture the edges read. */
  lemma NestedStore(st0: Store)
    requires st0 == Store(NestedHeap(), 5)
    ensures ValidStore(st0) && 4 in st0.nodes && st0.nodes[4] == [("a", Obj(3)), ("tre", Obj(0))]
    ensures 0 in st0.nodes && st0.nodes[0] == [("succe", Bool(true))]
    ensures 2 in st0.nodes && st0.nodes[2] == [("$ref", Str("#/tre"))] && 3 in st0.nodes
    ensures Get(st0.nodes, Obj(3), "c") == Obj(2) && Get(st0.nodes, Obj(3), "b") == Obj(1)
    ensures 1 in st0.nodes && st0.nodes[1] == [("$ref", Str("#/a/c"))] && st0.next == 5
  {
    NestedValid();
  }

  lemma NestedValid()
    ensures ValidStore(Store(NestedHeap(), 5))
  {
    var h := NestedHeap();
    assert DistinctKeys(h[3]) && DistinctKeys(h[4]);
    assert Closed(h) by {
      forall id, i | id in h && 0 <= i < |h[id]| && h[id][i].1.Obj? ensures h[id][i].1.id in h {
        assert id == 3 || id == 4;
      }
    }
  }

  /**
   * In a store whose root and `tre` are as in the nested fixture, an edge
   * from `#/a/<key>` to `#/tre` writes the slot `key` of `a`.
   */
  lemma NestedSlot(st: Store, e: Ref, key: string)
    requires key == "b" || key == "c"
    requires e == ("#/a/" + key, Str("#/tre"))
    requires 4 in st.nodes && st.nodes[4] == [("a", Obj(3)), ("tre", Obj(0))] && 3 in st.nodes
    ensures EdgeSlot(st, 4, e, Obj(0), 3, key)
  {
    NestedPaths(e, key);
    WalkOne(st.nodes, 4, "a");
    WalkOne(st.nodes, 4, "tre");
    NestedRoot(st.nodes);
  }

  /** The pointers of a nested edge: the source is the root's `tre`, the slot is `key` of `a`. */
  lemma NestedPaths(e: Ref, key: string)
    requires key == "b" || key == "c"
    requires e == ("#/a/" + key, Str("#/tre"))
    ensures e.1.Str? && SourcePath(e.1.s) == ["tre"]
    ensures TargetParentPath(e.0) == ["a"] && TargetKey(e.0) == key
  {
    TopPointer("tre");
    assert "#/" + "tre" == "#/tre";
    NestedLiterals();
    if key == "b" {
      NestedPointer("a", "b");
    } else {
      NestedPointer("a", "c");
    }
  }

  /** The fold of a slot `{ $ref: p }` with the source `{ succe: true }`, `$ref` dropped. */
  lemma PlainFold(tE: Entries, sE: Entries)
    requires |tE| == 1 && tE[0].0 == "$ref" && sE == [("succe", Bool(true))]
    ensures Assemble(Layout(Merge, tE, sE), KeepFlag(false)) == [("succe", Bool(true))]
  {
    assert IndexOfKey(tE, "$ref") == 0;
    assert Layout(Merge, tE, sE) == [("succe", Bool(true)), tE[0]];
    var lay := [("succe", Bool(true)), tE[0]];
    assert lay[..1] == [("succe", Bool(true))] && lay[..1][..0] == [];
    assert Assemble(lay[..1], KeepFlag(false)) == Put([], "succe", Bool(true)) == [("succe", Bool(true))];
  }

  /** The fold of a slot `{ $ref: p }` with the source `{ succe: true }` under `pelle`. */
  lemma PelleFold(tE: Entries, sE: Entries)
    requires |tE| == 1 && tE[0].0 == "$ref" && sE == [("succe", Bool(true))]
    ensures Assemble(Layout(Merge, tE, sE), KeepName("pelle")) == [("succe", Bool(true)), ("pelle", tE[0].1)]
  {
    assert IndexOfKey(tE, "$ref") == 0;
    assert Layout(Merge, tE, sE) == [("succe", Bool(true)), tE[0]];
    var lay := [("succe", Bool(true)), tE[0]];
    assert lay[..1] == [("succe", Bool(true))] && lay[..1][..0] == [];
    assert Assemble(lay[..1], KeepName("pelle")) == Put([], "succe", Bool(true)) == [("succe", Bool(true))];
    assert !HasKey([("succe", Bool(true))], "pelle");
    PutEntries([("succe", Bool(true))], "pelle", tE[0].1);
  }

  /** Resolving `#/a/b` to `#` makes `obj.a.b` the root object itself. */
  lemma CircularAlias()
    ensures var run := Resolve(Store(CircularHeap(), 3), 2, [("#/a/b", Str("#"))], DefaultOptions);
      && run.failure.None?
      && Get(run.st.nodes, Get(run.st.nodes, Obj(2), "a"), "b") == Obj(2)
  {
    var h := CircularHeap();
    var st0 := Store(h, 3);
    var e := ("#/a/b", Str("#"));
    var o := DefaultOptions;
    RootPointer(h, Obj(2));
    NestedPointer("a", "b");
    NestedLiterals();
    WalkOne(h, 2, "a");
    ResolveAliases(st0, 2, e, o, Obj(2), 1, "b");
    ResolveSnoc(st0, 2, [], e, o);
    assert [] + [e] == [e];
  }

  /** `{ root: 'yes', a: { b: { flag: 'yep', $ref: '#' } } }`, the root being node 2. */
  function CircularMergeHeap(): Heap {
    map[
      0 := [("flag", Str("yep")), ("$ref", Str("#"))],
      1 := [("b", Obj(0))],
      2 := [("root", Str("yes")), ("a", Obj(1))]
    ]
  }

  /** Merging the root into `a.b` keeps `b`'s own `flag` and adds the root's `root`. */
  lemma CircularMerge()
    ensures var run := Resolve(Store(CircularMergeHeap(), 3), 2, [("#/a/b", Str("#"))], Options(Merge, KeepFlag(false), Unset, None));
      var b := Get(run.st.nodes, Get(run.st.nodes, Obj(2), "a"), "b");
      && run.failure.None?
      && Get(run.st.nodes, b, "root") == Str("yes")
      && Get(run.st.nodes, b, "flag") == Str("yep")
      && !HasKey(EntriesOf(run.st.nodes, b), "$ref")
  {
    var h := CircularMergeHeap();
    var st0 := Store(h, 3);
    var e := ("#/a/b", Str("#"));
    var o := Options(Merge, KeepFlag(false), Unset, None);
    CircularMergeSlot(st0, e);
    CircularMergeValid();
    assert Get(h, Obj(2), "a") == Obj(1);
    var st1 := CircularMergeEdge(st0, e, o);
    ResolveSnoc(st0, 2, [], e, o);
    assert [] + [e] == [e];
    CircularMergeFold(st0.nodes[0], st0.nodes[2], o.keepRefs);
  }

  /** The fold of the merge fixture: `b`'s `flag`, the root's `root`, and no `$ref`. */
  lemma CircularMergeFold(tE: Entries, sE: Entries, keep: KeepRefs)
    requires tE == [("flag", Str("yep")), ("$ref", Str("#"))] && sE == [("root", Str("yes")), ("a", Obj(1))]
    requires keep == KeepFlag(false)
    ensures var m := Assemble(Layout(Merge, tE, sE), keep);
      Lookup(m, "root") == Str("yes") && Lookup(m, "flag") == Str("yep") && !HasKey(m, "$ref")
  {
    var pre := [("flag", Str("yep"))];
    assert tE == pre + [("$ref", Str("#"))] + [];
    assert !HasKey(pre, "$ref") && Lookup(pre, "flag") == Str("yep");
    assert Lookup(sE, "root") == Str("yes") && !HasKey(sE, "flag");
    MergeInPlace(tE, sE, keep, "root", pre, Str("#"), []);
    MergeInPlace(tE, sE, keep, "flag", pre, Str("#"), []);
    MergeDropsRefs(Merge, tE, sE, keep);
  }

  lemma CircularMergeValid()
    ensures ValidStore(Store(CircularMergeHeap(), 3))
  {
    var h := CircularMergeHeap();
    assert DistinctKeys(h[0]) && DistinctKeys(h[1]) && DistinctKeys(h[2]);
    assert Closed(h) by {
      forall id, i | id in h && 0 <= i < |h[id]| && h[id][i].1.Obj? ensures h[id][i].1.id in h {
        assert id == 1 || id == 2;
      }
    }
  }

  /** The merge edge of the fixture writes a new object, the fold of the layout, into `a.b`. */
  lemma CircularMergeEdge(st0: Store, e: Ref, o: Options) returns (st1: Store)
    requires ValidStore(st0) && 2 in st0.nodes && o.merge == Merge
    requires EdgeSlot(st0, 2, e, Obj(2), 1, "b") && Get(st0.nodes, Obj(1), "b") == Obj(0)
    requires Get(st0.nodes, Obj(2), "a") == Obj(1) && st0.next == 3
    ensures ResolveEdge(st0, 2, e, o) == Written(st1)
    ensures Get(st1.nodes, Obj(2), "a") == Obj(1)
    ensures Get(st1.nodes, Obj(1), "b") == Obj(3)
    ensures EntriesOf(st1.nodes, Obj(3)) == Assemble(Layout(Merge, EntriesOf(st0.nodes, Obj(0)), EntriesOf(st0.nodes, Obj(2))), o.keepRefs)
  {
    ResolveMerges(st0, 2, e, o, Obj(2), 1, "b");
    st1 := ResolveEdge(st0, 2, e, o).st;
    assert st1.nodes[2] == st0.nodes[2];
  }

  /** The edge of the merge fixture writes the slot `b` of node 1, and its source is the root. */
  lemma CircularMergeSlot(st0: Store, e: Ref)
    requires st0 == Store(CircularMergeHeap(), 3) && e == ("#/a/b", Str("#"))
    ensures EdgeSlot(st0, 2, e, Obj(2), 1, "b") && Get(st0.nodes, Obj(1), "b") == Obj(0)
  {
    var h := st0.nodes;
    RootPointer(h, Obj(2));
    NestedPointer("a", "b");
    NestedLiterals();
    WalkOne(h, 2, "a");
  }

  function StartsWith(s: string, p: string): bool {
    |p| <= |s| && s[..|p|] == p
  }

  /** The filter of the hydration test: only edges whose target starts with `#/resolveThis`. */
  function OnlyResolveThis(): Ref -> bool {
    (r: Ref) => StartsWith(r.0, "#/resolveThis")
  }

  /** `{ source: { nr: 1 }, resolveThis: { $ref: '#/source' }, notThis: { $ref: '#/source' } }`. */
  function FilterHeap(): Heap {
    map[
      0 := [("nr", Num(1))],
      1 := [("$ref", Str("#/source"))],
      2 := [("$ref", Str("#/source"))],
      3 := [("source", Obj(0)), ("resolveThis", Obj(1)), ("notThis", Obj(2))]
    ]
  }

  /** `findRefs` finds both edges; the filter keeps the first. */
  lemma FilterFind()
    ensures Ranked(FilterHeap())
    ensures FilterRefs(FindNode(FilterHeap(), 3, [], "#"), OnlyResolveThis()) == [("#/resolveThis", Str("#/source"))]
  {
    var refs := FilterFindRefs(FilterHeap());
    FilterKeepsFirst(refs);
  }

  lemma FilterFindRefs(h: Heap) returns (refs: seq<Ref>)
    requires h == FilterHeap()
    ensures Ranked(h) && refs == FindNode(h, 3, [], "#")
    ensures refs == [("#/resolveThis", Str("#/source")), ("#/notThis", Str("#/source"))]
  {
    FilterNodeEntries(h);
    refs := FilterWalk(h);
  }

  lemma FilterNodeEntries(h: Heap)
    requires h == FilterHeap()
    ensures Ranked(h) && NodeEntries(h, 3) == [("source", Obj(0)), ("resolveThis", Obj(1)), ("notThis", Obj(2))]
    ensures Get(h, Obj(1), "$ref") == Str("#/source") && Get(h, Obj(2), "$ref") == Str("#/source")
    ensures NodeEntries(h, 0) == [("nr", Num(1))]
  {
  }

  /** `findRefs` on the filter fixture, from the facts about its nodes. */
  lemma FilterWalk(h: Heap) returns (refs: seq<Ref>)
    requires Ranked(h) && NodeEntries(h, 3) == [("source", Obj(0)), ("resolveThis", Obj(1)), ("notThis", Obj(2))]
    requires Get(h, Obj(1), "$ref") == Str("#/source") && Get(h, Obj(2), "$ref") == Str("#/source")
    requires NodeEntries(h, 0) == [("nr", Num(1))]
    ensures refs == FindNode(h, 3, [], "#")
    ensures refs == [("#/resolveThis", Str("#/source")), ("#/notThis", Str("#/source"))]
  {
    FilterLiterals();
    var acc1 := RecordRef([], "#/resolveThis", Str("#/source"));
    refs := RecordRef(acc1, "#/notThis", Str("#/source"));
    FilterRecords();
    FindStep(h, 3, 0, [], "#");
    assert Get(h, Obj(0), "$ref") == Undef;
    LeafFind(h, 0, [], "#/source");
    FindStep(h, 3, 1, [], "#");
    FindStep(h, 3, 2, acc1, "#");
    assert FindFrom(h, 3, 3, refs, "#") == refs;
  }

  lemma FilterRecords()
    ensures RecordRef([], "#/resolveThis", Str("#/source")) == [("#/resolveThis", Str("#/source"))]
    ensures RecordRef([("#/resolveThis", Str("#/source"))], "#/notThis", Str("#/source")) ==
      [("#/resolveThis", Str("#/source")), ("#/notThis", Str("#/source"))]
  {
  }

  lemma FilterKeepsFirst(refs: seq<Ref>)
    requires refs == [("#/resolveThis", Str("#/source")), ("#/notThis", Str("#/source"))]
    ensures FilterRefs(refs, OnlyResolveThis()) == [refs[0]]
  {
    var f := OnlyResolveThis();
    assert f(refs[0]);
    assert !f(refs[1]);
    assert refs[1..][1..] == [];
    assert FilterRefs(refs[1..], f) == [];
  }

  /** The accepted edge aliases `resolveThis` to `source`; `notThis` is not touched. */
  lemma FilterResolve(st0: Store, e: Ref, o: Options)
    requires st0 == Store(FilterHeap(), 4) && e == ("#/resolveThis", Str("#/source"))
    requires o == Options(NoMerge, KeepFlag(false), Unset, Some(OnlyResolveThis()))
    ensures var run := Resolve(st0, 3, [e], o);
      && run.failure.None? && run.warnings == []
      && Get(run.st.nodes, Obj(3), "resolveThis") == Obj(0)
      && Get(run.st.nodes, Obj(3), "notThis") == Obj(2)
      && EntriesOf(run.st.nodes, Obj(2)) == [("$ref", Str("#/source"))]
  {
    FilterSlot(st0, e);
    var st1 := AliasEdge(st0, e, o, "resolveThis", "source");
    ResolveSnoc(st0, 3, [], e, o);
    assert [] + [e] == [e];
    assert Resolve(st0, 3, [e], o) == Run(st1, [], None);
  }

  /** The accepted edge writes the root's `resolveThis`, and its source is the root's `source`. */
  lemma FilterSlot(st0: Store, e: Ref)
    requires st0 == Store(FilterHeap(), 4) && e == ("#/resolveThis", Str("#/source"))
    ensures EdgeSlot(st0, 3, e, Obj(0), 3, "resolveThis") && Get(st0.nodes, Obj(3), "source") == Obj(0)
    ensures Get(st0.nodes, Obj(3), "notThis") == Obj(2) && 2 in st0.nodes
    ensures EntriesOf(st0.nodes, Obj(2)) == [("$ref", Str("#/source"))]
  {
    FilterLiterals();
    FilterNodes(st0.nodes);
    TopEdgeSlot(st0, 3, e, "resolveThis", "source");
  }

  lemma FilterNodes(h: Heap)
    requires h == FilterHeap()
    ensures 2 in h && 3 in h && Get(h, Obj(3), "source") == Obj(0) && Get(h, Obj(3), "notThis") == Obj(2)
    ensures EntriesOf(h, Obj(2)) == [("$ref", Str("#/source"))]
  {
  }

  /** The edge `('#/' + key, '#/' + src)` writes the root's `key` and reads the root's `src`. */
  lemma TopEdgeSlot(st: Store, root: NodeId, e: Ref, key: string, src: string)
    requires root in st.nodes && '/' !in key && '/' !in src && e == ("#/" + key, Str("#/" + src))
    ensures EdgeSlot(st, root, e, Get(st.nodes, Obj(root), src), root, key)
  {
    TopPointer(key);
    TopPointer(src);
    WalkOne(st.nodes, root, src);
  }

  /**
   * The hydration test: with a filter, only the accepted edge is resolved,
   * and `notThis` keeps its `$ref`.
   */
  lemma HydrateFilter()
    ensures Ranked(FilterHeap())
    ensures var refs := FilterRefs(FindNode(FilterHeap(), 3, [], "#"), OnlyResolveThis());
      var run := Resolve(Store(FilterHeap(), 4), 3, refs, Options(NoMerge, KeepFlag(false), Unset, Some(OnlyResolveThis())));
      && refs == [("#/resolveThis", Str("#/source"))]
      && run.failure.None? && run.warnings == []
      && Get(run.st.nodes, Obj(3), "resolveThis") == Obj(0)
      && Get(run.st.nodes, Obj(3), "notThis") == Obj(2)
      && EntriesOf(run.st.nodes, Obj(2)) == [("$ref", Str("#/source"))]
  {
    FilterFind();
    FilterResolve(Store(FilterHeap(), 4), ("#/resolveThis", Str("#/source")),
                  Options(NoMerge, KeepFlag(false), Unset, Some(OnlyResolveThis())));
  }
}
