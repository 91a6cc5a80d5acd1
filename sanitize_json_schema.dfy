/**
 * `sanitize`: give every schema object of the document that lacks a
 * `type` the type its keywords imply, `'object'` or `'array'`, walking the
 * document depth-first and updating it in place.
 */
module SanitizeJsonSchema {
  import opened JsonDoc

  /** A keyword of an object schema is present. */
  predicate ObjectHint(es: Entries) {
    HasKey(es, "properties") || HasKey(es, "patternProperties") || HasKey(es, "propertyNames")
    || HasKey(es, "minProperties") || HasKey(es, "maxProperties")
  }

  /** A keyword of an array schema is present. */
  predicate ArrayHint(es: Entries) {
    HasKey(es, "items") || HasKey(es, "prefixItems") || HasKey(es, "contains")
    || HasKey(es, "uniqueItems") || HasKey(es, "minItems") || HasKey(es, "maxItems")
  }

  /** The first statement of `sanitize` on one object. */
  function LocalHints(es: Entries): Entries {
    if HasKey(es, "type") then es
    else if ObjectHint(es) then Put(es, "type", Str("object"))
    else if ArrayHint(es) then Put(es, "type", Str("array"))
    else es
  }

  /**
   * An object gains `type: 'object'` when it has no `type` and an object
   * keyword, otherwise `type: 'array'` when it has no `type` and an array
   * keyword; the object keywords win when both kinds are present. Nothing
   * else changes, and the new key goes last.
   */
  lemma LocalHintsSpec(es: Entries)
    ensures HasKey(es, "type") ==> LocalHints(es) == es
    ensures !HasKey(es, "type") && ObjectHint(es) ==>
      LocalHints(es) == es + [("type", Str("object"))] && Lookup(LocalHints(es), "type") == Str("object")
    ensures !HasKey(es, "type") && !ObjectHint(es) && ArrayHint(es) ==>
      LocalHints(es) == es + [("type", Str("array"))] && Lookup(LocalHints(es), "type") == Str("array")
    ensures !HasKey(es, "type") && !ObjectHint(es) && !ArrayHint(es) ==> LocalHints(es) == es
    ensures forall k :: k != "type" ==> Lookup(LocalHints(es), k) == Lookup(es, k)
  {
    PutEntries(es, "type", Str("object"));
    PutEntries(es, "type", Str("array"));
  }

  /** The hint is given once: a second pass changes nothing. */
  lemma LocalHintsIdempotent(es: Entries)
    ensures LocalHints(LocalHints(es)) == LocalHints(es)
  {
    if !HasKey(es, "type") && (ObjectHint(es) || ArrayHint(es)) {
      var t := if ObjectHint(es) then "object" else "array";
      assert Lookup(LocalHints(es), "type") == Str(t);
      assert HasKey(LocalHints(es), "type");
    }
  }

  /** The objects a list of entries refers to. */
  ghost function ObjVals(es: Entries): set<NodeId> {
    set e | e in es && e.1.Obj? :: e.1.id
  }

  lemma LocalHintsEdges(es: Entries)
    ensures ObjVals(LocalHints(es)) == ObjVals(es)
    ensures DistinctKeys(es) ==> DistinctKeys(LocalHints(es))
  {
    LocalHintsSpec(es);
  }

  // ---------------------------------------------------------------------
  // The traversal

  /** Writing a smaller object, or a value that is not one, into a node keeps the heap ranked. */
  lemma RankedPut(h: Heap, id: NodeId, k: string, v: Val)
    requires Ranked(h) && id in h && (v.Obj? ==> v.id < id)
    ensures Ranked(h[id := Put(h[id], k, v)])
  {
    var h': Heap := h[id := Put(h[id], k, v)];
    PutEntries(h[id], k, v);
    forall j: NodeId, m: int | j in h' && 0 <= m < |h'[j]| && h'[j][m].1.Obj? ensures h'[j][m].1.id < j {
      if j == id {
        assert h'[j][m] in Put(h[id], k, v);
        if h'[j][m] != (k, v) {
          var n :| 0 <= n < |h[id]| && h[id][n] == h'[j][m];
        }
      }
    }
  }

  lemma RankedHints(h: Heap, id: NodeId)
    requires Ranked(h) && id in h
    ensures Ranked(h[id := LocalHints(h[id])])
  {
    LocalHintsSpec(h[id]);
    if LocalHints(h[id]) != h[id] {
      var t := if ObjectHint(h[id]) then "object" else "array";
      RankedPut(h, id, "type", Str(t));
    }
  }

  /** `sanitize(obj)` on the node `id`: the document afterwards. */
  function SanitizeNode(h: Heap, id: NodeId): (r: Heap)
    requires Ranked(h)
    ensures Ranked(r) && r.Keys == h.Keys
    decreases id, 1, 0
  {
    if id !in h then h
    else
      var h1 := h[id := LocalHints(h[id])];
      assert Ranked(h1) by { RankedHints(h, id); }
      SanitizeFrom(h1, id, h1[id], 0)
  }

  /** The loop over the entries `es` of the node `id`, from entry `i`. */
  function SanitizeFrom(h: Heap, id: NodeId, es: Entries, i: nat): (r: Heap)
    requires Ranked(h) && id in h && i <= |es|
    requires forall m :: 0 <= m < |es| && es[m].1.Obj? ==> es[m].1.id < id
    ensures Ranked(r) && r.Keys == h.Keys
    decreases id, 0, |es| - i
  {
    if i == |es| then h
    else if es[i].1.Obj? then
      var h2 := SanitizeNode(h, es[i].1.id);
      var h3 := h2[id := Put(h2[id], es[i].0, es[i].1)];
      assert Ranked(h3) by { RankedPut(h2, id, es[i].0, es[i].1); }
      SanitizeFrom(h3, id, es, i + 1)
    else SanitizeFrom(h, id, es, i + 1)
  }

  /** `sanitize` on the document, changing it in place. */
  method Sanitize(doc: Document, id: NodeId)
    requires Ranked(doc.nodes)
    modifies doc
    ensures doc.nodes == SanitizeNode(old(doc.nodes), id)
    ensures doc.next == old(doc.next)
    ensures old(doc.Valid()) ==> doc.Valid()
    decreases id
  {
    if id !in doc.nodes {
      return;
    }
    ghost var h0 := doc.nodes;
    doc.nodes := doc.nodes[id := LocalHints(doc.nodes[id])];
    assert Ranked(doc.nodes) by { RankedHints(h0, id); }
    var es := doc.nodes[id];
    var i := 0;
    while i < |es|
      invariant 0 <= i <= |es|
      invariant Ranked(doc.nodes) && id in doc.nodes && doc.next == old(doc.next)
      invariant forall m :: 0 <= m < |es| && es[m].1.Obj? ==> es[m].1.id < id
      invariant SanitizeFrom(doc.nodes, id, es, i) == SanitizeNode(h0, id)
    {
      SanitizeEntry(doc, id, es, i);
      i := i + 1;
    }
    if old(doc.Valid()) {
      SanitizeValid(old(doc.nodes), old(doc.next), id);
    }
  }

  /** One turn of the loop of `sanitize`: the entry `i` of the node `id`. */
  method SanitizeEntry(doc: Document, id: NodeId, es: Entries, i: nat)
    requires Ranked(doc.nodes) && id in doc.nodes && i < |es|
    requires forall m :: 0 <= m < |es| && es[m].1.Obj? ==> es[m].1.id < id
    modifies doc
    ensures Ranked(doc.nodes) && id in doc.nodes && doc.next == old(doc.next)
    ensures SanitizeFrom(old(doc.nodes), id, es, i) == SanitizeFrom(doc.nodes, id, es, i + 1)
    decreases id, 0
  {
    var key := es[i].0;
    var value := es[i].1;
    if value.Obj? {
      Sanitize(doc, value.id);
      ghost var h2 := doc.nodes;
      doc.SetProperty(id, key, value);
      RankedPut(h2, id, key, value);
      assert doc.nodes == h2[id := Put(h2[id], key, value)];
    }
  }

  // ---------------------------------------------------------------------
  // What the traversal does

  /** `to` is `from` or an object reachable from it. */
  ghost predicate Reaches(h: Heap, from: NodeId, to: NodeId)
    requires Ranked(h)
    decreases from
  {
    from == to || (from in h && exists c :: c in ObjVals(h[from]) && c < from && Reaches(h, c, to))
  }

  lemma RankedObjVals(h: Heap, j: NodeId, c: NodeId)
    requires Ranked(h) && j in h && c in ObjVals(h[j])
    ensures c < j
  {
    var e :| e in h[j] && e.1.Obj? && e.1.id == c;
    var m :| 0 <= m < |h[j]| && h[j][m] == e;
  }

  /** Reaching goes down in identity. */
  lemma {:induction false} ReachesDown(h: Heap, from: NodeId, to: NodeId)
    requires Ranked(h) && Reaches(h, from, to)
    ensures to <= from
    decreases from
  {
    if from != to {
      var c :| c in ObjVals(h[from]) && c < from && Reaches(h, c, to);
      ReachesDown(h, c, to);
    }
  }

  /** Two documents with the same nodes referring to the same objects. */
  ghost predicate SameEdges(h: Heap, h': Heap) {
    h.Keys == h'.Keys && forall j :: j in h ==> ObjVals(h[j]) == ObjVals(h'[j])
  }

  lemma {:induction false} ReachesSame(h: Heap, h': Heap, from: NodeId, to: NodeId)
    requires Ranked(h) && Ranked(h') && SameEdges(h, h')
    ensures Reaches(h, from, to) == Reaches(h', from, to)
    decreases from
  {
    if from != to && from in h {
      forall c | c in ObjVals(h[from]) && c < from
        ensures Reaches(h, c, to) == Reaches(h', c, to)
      {
        ReachesSame(h, h', c, to);
      }
    }
  }

  /** Each node of `h` is the node of `h0`, or it with its hint. */
  ghost predicate PartlyHinted(h0: Heap, h: Heap) {
    h.Keys == h0.Keys && forall j :: j in h ==> h[j] == h0[j] || h[j] == LocalHints(h0[j])
  }

  lemma PartlyHintedFacts(h0: Heap, h: Heap)
    requires PartlyHinted(h0, h) && DistinctNodes(h0)
    ensures SameEdges(h0, h) && DistinctNodes(h)
    ensures forall j :: j in h ==> LocalHints(h[j]) == LocalHints(h0[j])
  {
    forall j | j in h ensures ObjVals(h0[j]) == ObjVals(h[j]) && DistinctKeys(h[j])
      && LocalHints(h[j]) == LocalHints(h0[j]) {
      LocalHintsEdges(h0[j]);
      LocalHintsIdempotent(h0[j]);
    }
  }

  /** The node `id` of `h` after the traversal. */
  ghost function Expected(h: Heap, id: NodeId, j: NodeId): Entries
    requires Ranked(h) && j in h
  {
    if Reaches(h, id, j) then LocalHints(h[j]) else h[j]
  }

  /**
   * `sanitize` gives exactly the nodes reachable from `id` their hint, and
   * leaves every other node as it was. Shared and repeated sub-schemas are
   * visited more than once; the hint is idempotent, so this is harmless.
   */
  lemma {:induction false} SanitizeNodeSpec(h: Heap, id: NodeId)
    requires Ranked(h) && DistinctNodes(h)
    ensures forall j :: j in h ==> SanitizeNode(h, id)[j] == Expected(h, id, j)
    decreases id, 1, 0
  {
    if id in h {
      var h1 := h[id := LocalHints(h[id])];
      RankedHints(h, id);
      var es := h1[id];
      assert SanitizeNode(h, id) == SanitizeFrom(h1, id, es, 0);
      ProgressStart(h, id, h1);
      SanitizeFromSpec(h, id, es, 0, h1);
      forall j | j in h ensures SanitizeNode(h, id)[j] == Expected(h, id, j) {
        ReachedThroughEntries(h, id, es, j);
      }
    }
  }

  lemma ProgressStart(h: Heap, id: NodeId, h1: Heap)
    requires Ranked(h) && DistinctNodes(h) && id in h && h1 == h[id := LocalHints(h[id])]
    ensures PartlyHinted(h, h1)
    ensures forall m :: 0 <= m < |h1[id]| && h1[id][m].1.Obj? ==> h1[id][m].1.id < id
    ensures forall j :: j in h1 ==> h1[j] == Progress(h, id, h1[id], 0, j)
  {
    RankedHints(h, id);
  }

  /** The node `j` once the loop over `es` has handled its first `i` entries. */
  ghost function Progress(h0: Heap, id: NodeId, es: Entries, i: nat, j: NodeId): Entries
    requires Ranked(h0) && j in h0 && i <= |es|
  {
    if j == id || ReachedBefore(h0, es, i, j) then LocalHints(h0[j]) else h0[j]
  }

  /** `j` is reachable from one of the first `i` entries of `es`. */
  ghost predicate ReachedBefore(h0: Heap, es: Entries, i: nat, j: NodeId)
    requires Ranked(h0) && i <= |es|
  {
    exists m :: 0 <= m < i && es[m].1.Obj? && Reaches(h0, es[m].1.id, j)
  }

  lemma ReachedBeforeNext(h0: Heap, es: Entries, i: nat, j: NodeId)
    requires Ranked(h0) && i < |es|
    ensures ReachedBefore(h0, es, i + 1, j) <==>
      ReachedBefore(h0, es, i, j) || (es[i].1.Obj? && Reaches(h0, es[i].1.id, j))
  {
    if ReachedBefore(h0, es, i + 1, j) {
      var m :| 0 <= m < i + 1 && es[m].1.Obj? && Reaches(h0, es[m].1.id, j);
      if m < i {
        assert ReachedBefore(h0, es, i, j);
      }
    }
  }

  /** Reaching `j` from `id` means being `id` or reaching it from one of its objects. */
  lemma ReachedThroughEntries(h0: Heap, id: NodeId, es: Entries, j: NodeId)
    requires Ranked(h0) && id in h0 && j in h0 && es == LocalHints(h0[id])
    ensures Reaches(h0, id, j) <==> j == id || ReachedBefore(h0, es, |es|, j)
  {
    LocalHintsEdges(h0[id]);
    if j != id && Reaches(h0, id, j) {
      var c :| c in ObjVals(h0[id]) && c < id && Reaches(h0, c, j);
      assert c in ObjVals(es);
      var e :| e in es && e.1.Obj? && e.1.id == c;
      var m :| 0 <= m < |es| && es[m] == e;
    }
    if ReachedBefore(h0, es, |es|, j) {
      var m :| 0 <= m < |es| && es[m].1.Obj? && Reaches(h0, es[m].1.id, j);
      assert es[m] in es;
      assert es[m].1.id in ObjVals(h0[id]);
      RankedObjVals(h0, id, es[m].1.id);
    }
  }

  /** The shared precondition of the loop's lemmas. */
  ghost predicate LoopState(h0: Heap, id: NodeId, es: Entries, i: nat, h: Heap) {
    && Ranked(h0) && DistinctNodes(h0) && id in h0 && i <= |es|
    && es == LocalHints(h0[id])
    && (forall m :: 0 <= m < |es| && es[m].1.Obj? ==> es[m].1.id < id)
    && Ranked(h) && PartlyHinted(h0, h)
    && (forall j :: j in h ==> h[j] == Progress(h0, id, es, i, j))
  }

  lemma {:induction false} SanitizeFromSpec(h0: Heap, id: NodeId, es: Entries, i: nat, h: Heap)
    requires LoopState(h0, id, es, i, h)
    ensures forall j :: j in h ==> SanitizeFrom(h, id, es, i)[j] == Progress(h0, id, es, |es|, j)
    decreases id, 0, |es| - i
  {
    if i < |es| {
      if es[i].1.Obj? {
        ChildStep(h0, id, es, i, h);
        ChildFrom(h, id, es, i);
        SanitizeFromSpec(h0, id, es, i + 1, SanitizeNode(h, es[i].1.id));
      } else {
        ScalarStep(h0, id, es, i, h);
        SanitizeFromSpec(h0, id, es, i + 1, h);
      }
    }
  }

  /** An entry that is not an object moves the loop state on by one entry and changes nothing. */
  lemma ScalarStep(h0: Heap, id: NodeId, es: Entries, i: nat, h: Heap)
    requires LoopState(h0, id, es, i, h) && i < |es| && !es[i].1.Obj?
    ensures LoopState(h0, id, es, i + 1, h)
    ensures SanitizeFrom(h, id, es, i) == SanitizeFrom(h, id, es, i + 1)
  {
    forall j | j in h ensures h[j] == Progress(h0, id, es, i + 1, j) {
      ReachedBeforeNext(h0, es, i, j);
    }
  }

  /** Writing back an entry the sanitized child left in place continues the loop from the child's result. */
  lemma ChildFrom(h: Heap, id: NodeId, es: Entries, i: nat)
    requires Ranked(h) && id in h && i < |es| && es[i].1.Obj?
    requires forall m :: 0 <= m < |es| && es[m].1.Obj? ==> es[m].1.id < id
    requires var h2 := SanitizeNode(h, es[i].1.id); Put(h2[id], es[i].0, es[i].1) == h2[id]
    ensures SanitizeFrom(h, id, es, i) == SanitizeFrom(SanitizeNode(h, es[i].1.id), id, es, i + 1)
  {
    var h2 := SanitizeNode(h, es[i].1.id);
    SanitizeFromObj(h, id, es, i, h2);
    WriteBack(h2, id, Put(h2[id], es[i].0, es[i].1));
  }

  /** The loop at an object entry: sanitize the object, then write the entry back. */
  lemma SanitizeFromObj(h: Heap, id: NodeId, es: Entries, i: nat, h2: Heap)
    requires Ranked(h) && id in h && i < |es| && es[i].1.Obj?
    requires forall m :: 0 <= m < |es| && es[m].1.Obj? ==> es[m].1.id < id
    requires h2 == SanitizeNode(h, es[i].1.id)
    ensures Ranked(h2[id := Put(h2[id], es[i].0, es[i].1)])
    ensures SanitizeFrom(h, id, es, i) == SanitizeFrom(h2[id := Put(h2[id], es[i].0, es[i].1)], id, es, i + 1)
  {
    RankedPut(h2, id, es[i].0, es[i].1);
  }

  lemma WriteBack(h: Heap, id: NodeId, es: Entries)
    requires id in h && h[id] == es
    ensures h[id := es] == h
  {
  }

  /** Sanitizing the object of entry `i` moves the loop state on by one entry. */
  lemma ChildStep(h0: Heap, id: NodeId, es: Entries, i: nat, h: Heap)
    requires LoopState(h0, id, es, i, h) && i < |es| && es[i].1.Obj?
    ensures var h2 := SanitizeNode(h, es[i].1.id);
      && LoopState(h0, id, es, i + 1, h2)
      && Put(h2[id], es[i].0, es[i].1) == h2[id]
    decreases id, 0, |es| - i, 1
  {
    ChildProgress(h0, id, es, i, h);
    ChildKeepsParent(h0, id, es, i, h, SanitizeNode(h, es[i].1.id));
  }

  /** After the child, each node is where the loop state one entry on puts it. */
  lemma ChildProgress(h0: Heap, id: NodeId, es: Entries, i: nat, h: Heap)
    requires LoopState(h0, id, es, i, h) && i < |es| && es[i].1.Obj?
    ensures forall j :: j in h ==> SanitizeNode(h, es[i].1.id)[j] == Progress(h0, id, es, i + 1, j)
    decreases id, 0, |es| - i, 0
  {
    var c := es[i].1.id;
    PartlyHintedFacts(h0, h);
    SanitizeNodeSpec(h, c);
    forall j | j in h ensures SanitizeNode(h, c)[j] == Progress(h0, id, es, i + 1, j) {
      ChildProgressAt(h0, id, es, i, h, j);
    }
  }

  lemma ChildProgressAt(h0: Heap, id: NodeId, es: Entries, i: nat, h: Heap, j: NodeId)
    requires LoopState(h0, id, es, i, h) && i < |es| && es[i].1.Obj? && j in h
    requires SameEdges(h0, h) && LocalHints(h[j]) == LocalHints(h0[j])
    ensures Expected(h, es[i].1.id, j) == Progress(h0, id, es, i + 1, j)
  {
    ReachesSame(h0, h, es[i].1.id, j);
    ReachedBeforeNext(h0, es, i, j);
  }

  /** The state the child leaves is the loop state one entry on, and the parent's entry `i` is still there. */
  lemma ChildKeepsParent(h0: Heap, id: NodeId, es: Entries, i: nat, h: Heap, h2: Heap)
    requires LoopState(h0, id, es, i, h) && i < |es| && es[i].1.Obj?
    requires Ranked(h2) && h2.Keys == h.Keys
    requires forall j :: j in h ==> h2[j] == Progress(h0, id, es, i + 1, j)
    ensures LoopState(h0, id, es, i + 1, h2) && Put(h2[id], es[i].0, es[i].1) == h2[id]
  {
    assert h2[id] == es;
    LocalHintsEdges(h0[id]);
    LookupDistinct(es, i);
    PutSame(h2[id], es[i].0, es[i].1);
  }

  // ---------------------------------------------------------------------
  // Properties

  lemma SanitizePartlyHinted(h: Heap, id: NodeId)
    requires Ranked(h) && DistinctNodes(h)
    ensures PartlyHinted(h, SanitizeNode(h, id))
  {
    SanitizeNodeSpec(h, id);
  }

  /** Sanitizing twice is sanitizing once. */
  lemma SanitizeIdempotent(h: Heap, id: NodeId)
    requires Ranked(h) && DistinctNodes(h)
    ensures SanitizeNode(SanitizeNode(h, id), id) == SanitizeNode(h, id)
  {
    var r1 := SanitizeNode(h, id);
    var r2 := SanitizeNode(r1, id);
    SanitizeNodeSpec(h, id);
    SanitizePartlyHinted(h, id);
    PartlyHintedFacts(h, r1);
    SanitizeNodeSpec(r1, id);
    forall j | j in r1 ensures r2[j] == r1[j] {
      SecondPassAt(h, r1, id, j);
    }
    SameHeaps(r2, r1);
  }

  /** A node the first pass reached has its hint already; one it did not is as it was. */
  lemma SecondPassAt(h: Heap, r1: Heap, id: NodeId, j: NodeId)
    requires Ranked(h) && Ranked(r1) && SameEdges(h, r1) && j in h
    requires forall j :: j in h ==> r1[j] == Expected(h, id, j)
    ensures Expected(r1, id, j) == r1[j]
  {
    ReachesSame(h, r1, id, j);
    LocalHintsIdempotent(h[j]);
  }

  lemma SameHeaps(a: Heap, b: Heap)
    requires a.Keys == b.Keys && forall j :: j in a ==> a[j] == b[j]
    ensures a == b
  {
  }

  /**
   * `sanitize` adds at most a `type` key to each object: every other key
   * keeps its value, an object that had a `type` is untouched, and an
   * object reachable from the root that had none now has the one its
   * keywords imply.
   */
  lemma SanitizeOnlyAddsType(h: Heap, id: NodeId, j: NodeId)
    requires Ranked(h) && DistinctNodes(h) && j in h
    ensures var r := SanitizeNode(h, id)[j];
      && (forall k :: k != "type" ==> Lookup(r, k) == Lookup(h[j], k))
      && (HasKey(h[j], "type") ==> r == h[j])
      && (!ObjectHint(h[j]) && !ArrayHint(h[j]) ==> r == h[j])
      && (Reaches(h, id, j) && !HasKey(h[j], "type") && ObjectHint(h[j]) ==> Lookup(r, "type") == Str("object"))
      && (Reaches(h, id, j) && !HasKey(h[j], "type") && !ObjectHint(h[j]) && ArrayHint(h[j]) ==>
            Lookup(r, "type") == Str("array"))
      && (!Reaches(h, id, j) ==> r == h[j])
  {
    SanitizeNodeSpec(h, id);
    LocalHintsSpec(h[j]);
  }

  /** `sanitize` keeps the document valid and every object where it was. */
  lemma SanitizeValid(h: Heap, next: NodeId, id: NodeId)
    requires ValidHeap(h, next) && Ranked(h)
    ensures ValidHeap(SanitizeNode(h, id), next)
    ensures SameEdges(h, SanitizeNode(h, id))
  {
    var r := SanitizeNode(h, id);
    SanitizePartlyHinted(h, id);
    PartlyHintedFacts(h, r);
    forall j, m | j in r && 0 <= m < |r[j]| && r[j][m].1.Obj? ensures r[j][m].1.id in r {
      assert r[j][m] in r[j];
      assert r[j][m].1.id in ObjVals(r[j]);
      assert r[j][m].1.id in ObjVals(h[j]);
      var e :| e in h[j] && e.1.Obj? && e.1.id == r[j][m].1.id;
      var n :| 0 <= n < |h[j]| && h[j][n] == e;
    }
  }

  // ---------------------------------------------------------------------
  // Examples

  /**
   * The first test of the sanitizer: `{ properties: { rephrased_comment:
   * { description, type: 'string', examples: [..] } }, required: [..] }`
   * gains `type: 'object'` at the root and nothing else changes.
   */
  function CommentSchema(): Heap {
    map[
      0 := [("0", Str("This is a rephrased example comment.")), ("1", Str("Another rephrased example tweet."))],
      1 := [("description", Str("The rephrased comment")), ("type", Str("string")), ("examples", Obj(0))],
      2 := [("rephrased_comment", Obj(1))],
      3 := [("0", Str("rephrased_comment"))],
      4 := [("properties", Obj(2)), ("required", Obj(3))]
    ]
  }

  /** A node that refers only to smaller nodes and repeats no key. */
  ghost predicate GoodNode(es: Entries, j: NodeId) {
    DistinctKeys(es) && forall m :: 0 <= m < |es| && es[m].1.Obj? ==> es[m].1.id < j
  }

  lemma GoodHeap(h: Heap)
    requires forall j :: j in h ==> GoodNode(h[j], j)
    ensures Ranked(h) && DistinctNodes(h)
  {
  }

  lemma CommentSchemaValid(h: Heap)
    requires h == CommentSchema()
    ensures Ranked(h) && DistinctNodes(h)
  {
    forall j | j in h ensures GoodNode(h[j], j) {
      if j == 1 {
        assert h[1][0].0 != h[1][1].0 && h[1][1].0 != h[1][2].0 && h[1][0].0 != h[1][2].0;
      }
    }
    GoodHeap(h);
  }

  /** The keys the hints look at. */
  const HintKeys: set<string> := {"type", "properties", "patternProperties", "propertyNames", "minProperties",
    "maxProperties", "items", "prefixItems", "contains", "uniqueItems", "minItems", "maxItems"}

  /** An object with none of those keys gets no hint. */
  lemma NoHintKeys(es: Entries)
    requires forall m :: 0 <= m < |es| ==> es[m].0 !in HintKeys
    ensures !HasKey(es, "type") && !ObjectHint(es) && !ArrayHint(es)
  {
  }

  /**
   * Sanitizing from a root that has an object keyword and no `type`, in a
   * document whose other objects have a `type` or none of the hint keys:
   * the root gains `type: 'object'` and nothing else changes.
   */
  lemma OnlyRootHinted(h: Heap, root: NodeId) returns (r: Heap)
    requires Ranked(h) && DistinctNodes(h) && root in h
    requires !HasKey(h[root], "type") && ObjectHint(h[root])
    requires forall j :: j in h && j != root ==>
      HasKey(h[j], "type") || forall m :: 0 <= m < |h[j]| ==> h[j][m].0 !in HintKeys
    ensures r == SanitizeNode(h, root)
    ensures Lookup(r[root], "type") == Str("object")
    ensures forall k :: k != "type" ==> Lookup(r[root], k) == Lookup(h[root], k)
    ensures forall j :: j in h && j != root ==> r[j] == h[j]
  {
    r := SanitizeNode(h, root);
    assert Reaches(h, root, root);
    SanitizeOnlyAddsType(h, root, root);
    forall j | j in h && j != root ensures r[j] == h[j] {
      if !HasKey(h[j], "type") {
        NoHintKeys(h[j]);
      }
      SanitizeOnlyAddsType(h, root, j);
    }
  }

  lemma CommentSchemaKeys(h: Heap)
    requires h == CommentSchema()
    ensures 4 in h && !HasKey(h[4], "type") && HasKey(h[4], "properties")
    ensures forall j :: j in h && j != 4 ==>
      HasKey(h[j], "type") || forall m :: 0 <= m < |h[j]| ==> h[j][m].0 !in HintKeys
  {
    assert HasKey(h[4], "properties") by { assert h[4][0].0 == "properties"; }
    forall j | j in h && j != 4
      ensures HasKey(h[j], "type") || forall m :: 0 <= m < |h[j]| ==> h[j][m].0 !in HintKeys
    {
      if j == 1 {
        assert h[1][1].0 == "type";
      } else {
        CommentSchemaPlainNode(h, j);
        forall m | 0 <= m < |h[j]| ensures h[j][m].0 !in HintKeys {
          PlainKey(h[j][m].0);
        }
      }
    }
  }

  lemma CommentSchemaPlainNode(h: Heap, j: NodeId)
    requires h == CommentSchema() && j in h && j != 1 && j != 4
    ensures forall m :: 0 <= m < |h[j]| ==> h[j][m].0 in {"0", "1", "rephrased_comment"}
  {
  }

  lemma PlainKey(k: string)
    requires k in {"0", "1", "rephrased_comment"}
    ensures k !in HintKeys
  {
  }

  lemma CommentSchemaSanitized(h: Heap) returns (r: Heap)
    requires h == CommentSchema()
    ensures r == SanitizeNode(h, 4)
    ensures Lookup(r[4], "type") == Str("object")
    ensures forall k :: k != "type" ==> Lookup(r[4], k) == Lookup(h[4], k)
    ensures forall j :: j in h && j != 4 ==> r[j] == h[j]
  {
    CommentSchemaValid(h);
    CommentSchemaKeys(h);
    r := OnlyRootHinted(h, 4);
  }

  /** `{ type: 'object', properties: { items: { type: 'string' } } }`: an object schema with a property named `items`. */
  function ItemsSchema(): Heap {
    map[0 := [("type", Str("string"))], 1 := [("items", Obj(0))],
        2 := [("type", Str("object")), ("properties", Obj(1))]]
  }

  /**
   * The walk does not tell schemas from the maps that hold them: a
   * `properties` map with a property named `items` is itself given
   * `type: 'array'`, which then reads as one more property.
   */
  lemma PropertyNamedItems(h: Heap)
    requires h == ItemsSchema()
    ensures Ranked(h) && DistinctNodes(h)
    ensures Lookup(SanitizeNode(h, 2)[1], "type") == Str("array")
  {
    ItemsSchemaValid(h);
    ItemsSchemaKeys(h);
    assert Reaches(h, 1, 1);
    assert Reaches(h, 2, 1);
    SanitizeOnlyAddsType(h, 2, 1);
  }

  lemma ItemsSchemaValid(h: Heap)
    requires h == ItemsSchema()
    ensures Ranked(h) && DistinctNodes(h)
  {
    forall j | j in h ensures GoodNode(h[j], j) {
    }
    GoodHeap(h);
  }

  lemma ItemsSchemaKeys(h: Heap)
    requires h == ItemsSchema()
    ensures 1 in h && 2 in h && 1 in ObjVals(h[2])
    ensures HasKey(h[1], "items") && !HasKey(h[1], "type") && !ObjectHint(h[1])
  {
    assert h[2][1] in h[2];
    assert h[1][0].0 == "items";
  }
}
