/**
 * The in-memory JSON-Schema document the resolver and the sanitizer work on.
 *
 * A JavaScript object graph is an arena: every object (or array) is a node
 * with an identity, a `NodeId`, holding its own entries in insertion order; an array's entries carry the
 * keys "0", "1", ... JavaScript lists canonical array-index keys first, in
 * ascending order, before the other keys; the model keeps every key in
 * insertion order. A value that is an object is `Obj(id)`, so two slots holding
 * the same object hold the same id, and a node may refer back to an
 * ancestor or to the root.
 */
module JsonDoc {

  type NodeId = nat

  /** A JavaScript value as the core sees it. Numbers are integers here. */
  datatype Val = Undef | Null | Bool(b: bool) | Num(n: int) | Str(s: string) | Obj(id: NodeId)

  type Entry = (string, Val)
  type Entries = seq<Entry>

  /** Every node of the graph, by identity. */
  type Heap = map<NodeId, Entries>

  /** JavaScript truthiness. */
  predicate Truthy(v: Val) {
    match v
    case Undef => false
    case Null => false
    case Bool(b) => b
    case Num(n) => n != 0
    case Str(s) => s != ""
    case Obj(_) => true
  }

  /** `typeof v === 'object'`, which holds for `null` as well. */
  predicate TypeofObject(v: Val) {
    v.Null? || v.Obj?
  }

  function Keys(es: Entries): (ks: seq<string>)
    ensures |ks| == |es|
    ensures forall i :: 0 <= i < |es| ==> ks[i] == es[i].0
  {
    seq(|es|, i requires 0 <= i < |es| => es[i].0)
  }

  /** Index of the first entry with key `k`, or -1 (`findIndex`). */
  function IndexOfKey(es: Entries, k: string): (r: int)
    ensures -1 <= r < |es|
    ensures r >= 0 ==> es[r].0 == k
    ensures forall j :: 0 <= j < |es| && (r < 0 || j < r) ==> es[j].0 != k
    decreases |es|
  {
    if |es| == 0 then -1
    else if es[0].0 == k then 0
    else
      var r := IndexOfKey(es[1..], k);
      if r < 0 then -1 else r + 1
  }

  /** `k in obj` for an own key. */
  predicate HasKey(es: Entries, k: string) {
    IndexOfKey(es, k) >= 0
  }

  /** `obj[k]`: the value under key `k`, or `undefined`. */
  function Lookup(es: Entries, k: string): Val {
    var i := IndexOfKey(es, k);
    if i < 0 then Undef else es[i].1
  }

  /** No key appears twice, as in any JavaScript object. */
  predicate DistinctKeys(es: Entries) {
    forall i, j :: 0 <= i < j < |es| ==> es[i].0 != es[j].0
  }

  /**
   * `obj[k] = v`: an existing key keeps its place and takes the new value;
   * a new key is appended (for a key that is not an array index, as in
   * JavaScript).
   */
  function Put(es: Entries, k: string, v: Val): (r: Entries)
    ensures Lookup(r, k) == v
    ensures forall k' :: k' != k ==> Lookup(r, k') == Lookup(es, k')
    ensures HasKey(es, k) ==> Keys(r) == Keys(es)
    ensures !HasKey(es, k) ==> Keys(r) == Keys(es) + [k]
    ensures DistinctKeys(es) ==> DistinctKeys(r)
  {
    var i := IndexOfKey(es, k);
    if i < 0 then
      var r := es + [(k, v)];
      assert IndexOfKey(r, k) == |es| by { IndexAfterAppend(es, k, v, k); }
      forall k' | k' != k ensures Lookup(r, k') == Lookup(es, k') {
        IndexAfterAppend(es, k, v, k');
      }
      assert Keys(r) == Keys(es) + [k];
      r
    else
      var r := es[i := (k, v)];
      assert Keys(r) == Keys(es);
      SameKeysSameIndex(es, r, k);
      forall k' | k' != k ensures Lookup(r, k') == Lookup(es, k') {
        SameKeysSameIndex(es, r, k');
      }
      r
  }

  /** `obj[k] = v` brings in no entry but `(k, v)`, and appends it when `k` is new. */
  lemma PutEntries(es: Entries, k: string, v: Val)
    ensures forall e :: e in Put(es, k, v) ==> e == (k, v) || e in es
    ensures !HasKey(es, k) ==> Put(es, k, v) == es + [(k, v)]
  {
  }

  /** Writing back the value a key already holds changes nothing. */
  lemma PutSame(es: Entries, k: string, v: Val)
    requires HasKey(es, k) && Lookup(es, k) == v
    ensures Put(es, k, v) == es
  {
    var i := IndexOfKey(es, k);
    assert es[i] == (k, v);
  }

  lemma {:induction false} SameKeysSameIndex(a: Entries, b: Entries, k: string)
    requires Keys(a) == Keys(b)
    ensures IndexOfKey(a, k) == IndexOfKey(b, k)
    decreases |a|
  {
    if |a| > 0 {
      assert a[0].0 == Keys(a)[0] == Keys(b)[0] == b[0].0;
      assert Keys(a[1..]) == Keys(a)[1..];
      assert Keys(b[1..]) == Keys(b)[1..];
      SameKeysSameIndex(a[1..], b[1..], k);
    }
  }

  lemma {:induction false} IndexAfterAppend(es: Entries, k: string, v: Val, k': string)
    requires IndexOfKey(es, k) < 0
    ensures IndexOfKey(es + [(k, v)], k') ==
      if k' == k then |es| else IndexOfKey(es, k')
    decreases |es|
  {
    var r := es + [(k, v)];
    if |es| > 0 {
      assert r[0] == es[0];
      assert r[1..] == es[1..] + [(k, v)];
      if es[0].0 != k' {
        assert es[0].0 != k;
        IndexAfterAppend(es[1..], k, v, k');
      }
    }
  }

  lemma HasKeyInKeys(es: Entries, k: string)
    ensures HasKey(es, k) <==> k in Keys(es)
  {
    if k in Keys(es) {
      var i :| 0 <= i < |es| && Keys(es)[i] == k;
      assert es[i].0 == k;
    }
  }

  /** `k` is a key of `a + b` exactly when it is a key of `a` or of `b`. */
  lemma HasKeyConcat(a: Entries, b: Entries, k: string)
    ensures HasKey(a + b, k) <==> HasKey(a, k) || HasKey(b, k)
  {
    HasKeyInKeys(a, k);
    HasKeyInKeys(b, k);
    HasKeyInKeys(a + b, k);
    assert Keys(a + b) == Keys(a) + Keys(b);
  }

  /** A lookup in `a + b` finds `a`'s entry first. */
  lemma {:induction false} LookupConcat(a: Entries, b: Entries, k: string)
    ensures Lookup(a + b, k) == if HasKey(a, k) then Lookup(a, k) else Lookup(b, k)
    decreases |a|
  {
    if |a| > 0 {
      assert (a + b)[0] == a[0];
      assert (a + b)[1..] == a[1..] + b;
      if a[0].0 != k {
        LookupConcat(a[1..], b, k);
      }
    } else {
      assert a + b == b;
    }
  }

  /** The parts of a list with distinct keys have distinct keys. */
  lemma DistinctSlices(a: Entries, b: Entries, c: Entries)
    requires c == a + b && DistinctKeys(c)
    ensures DistinctKeys(a) && DistinctKeys(b)
  {
    forall i, j | 0 <= i < j < |a| ensures a[i].0 != a[j].0 {
      assert a[i] == c[i] && a[j] == c[j];
    }
    forall i, j | 0 <= i < j < |b| ensures b[i].0 != b[j].0 {
      assert b[i] == c[|a| + i] && b[j] == c[|a| + j];
    }
  }

  /** Lookup in a list with distinct keys finds the one entry with that key. */
  lemma LookupDistinct(es: Entries, i: nat)
    requires DistinctKeys(es) && i < |es|
    ensures Lookup(es, es[i].0) == es[i].1
  {
    var j := IndexOfKey(es, es[i].0);
    assert j >= 0;
  }

  /** `Object.entries(v)`: the own entries of an object, none for anything else. */
  function EntriesOf(h: Heap, v: Val): Entries {
    if v.Obj? && v.id in h then h[v.id] else []
  }

  /**
   * `v[k]` on a value of the graph: an object's own property; `undefined`
   * for a property of anything that is not an object of the heap.
   */
  function Get(h: Heap, v: Val, k: string): Val {
    Lookup(EntriesOf(h, v), k)
  }

  /** Every object a node refers to is itself a node of the heap. */
  ghost predicate Closed(h: Heap) {
    forall id, i :: id in h && 0 <= i < |h[id]| && h[id][i].1.Obj? ==> h[id][i].1.id in h
  }

  /**
   * Every object a node refers to has a smaller identity: the graph is a
   * tree (or a DAG) as parsed from JSON, with no cycle. Post-order
   * allocation by a parser gives exactly this.
   */
  ghost predicate Ranked(h: Heap) {
    forall id, i :: id in h && 0 <= i < |h[id]| && h[id][i].1.Obj? ==> h[id][i].1.id < id
  }

  /** Every node is a JavaScript object: no key appears twice in it. */
  ghost predicate DistinctNodes(h: Heap) {
    forall id :: id in h ==> DistinctKeys(h[id])
  }

  /** In a closed heap, a value stored in a node refers only to nodes of the heap. */
  ghost predicate InHeap(h: Heap, v: Val) {
    v.Obj? ==> v.id in h
  }

  /** Every value of `es` is in the heap. */
  ghost predicate AllInHeap(h: Heap, es: Entries) {
    forall e :: e in es ==> InHeap(h, e.1)
  }

  /**
   * The invariant of a document: `next` is above every identity in use,
   * objects refer only to nodes, and no node repeats a key.
   */
  ghost predicate ValidHeap(h: Heap, next: NodeId) {
    (forall id :: id in h ==> id < next) && Closed(h) && DistinctNodes(h)
  }

  lemma LookupInHeap(h: Heap, id: NodeId, k: string)
    requires Closed(h) && id in h
    ensures InHeap(h, Lookup(h[id], k))
  {
    var i := IndexOfKey(h[id], k);
    if i >= 0 {
      assert h[id][i].1 == Lookup(h[id], k);
    }
  }

  lemma EntriesInHeap(h: Heap, v: Val)
    requires Closed(h) && InHeap(h, v)
    ensures AllInHeap(h, EntriesOf(h, v))
  {
    forall e | e in EntriesOf(h, v) ensures InHeap(h, e.1) {
      var i :| 0 <= i < |EntriesOf(h, v)| && EntriesOf(h, v)[i] == e;
    }
  }

  lemma PutInHeap(h: Heap, es: Entries, k: string, v: Val)
    requires AllInHeap(h, es) && InHeap(h, v)
    ensures AllInHeap(h, Put(es, k, v))
  {
  }

  /** Values of a heap stay in the heap when it grows. */
  lemma InHeapGrows(h: Heap, h': Heap, es: Entries)
    requires h.Keys <= h'.Keys && AllInHeap(h, es)
    ensures AllInHeap(h', es)
  {
  }

  lemma ClosedFromAllIn(h: Heap)
    requires forall id :: id in h ==> AllInHeap(h, h[id])
    ensures Closed(h)
  {
    forall id, i | id in h && 0 <= i < |h[id]| && h[id][i].1.Obj? ensures h[id][i].1.id in h {
      assert h[id][i] in h[id];
    }
  }

  /** A new node at `next`, whose values are all in the heap, keeps the heap valid. */
  lemma NewNodeValid(h: Heap, next: NodeId, es: Entries)
    requires ValidHeap(h, next) && AllInHeap(h, es) && DistinctKeys(es)
    ensures ValidHeap(h[next := es], next + 1)
  {
    var h' := h[next := es];
    forall id | id in h' ensures AllInHeap(h', h'[id]) {
      if id == next {
        InHeapGrows(h, h', es);
      } else {
        EntriesInHeap(h, Obj(id));
        InHeapGrows(h, h', h[id]);
      }
    }
    ClosedFromAllIn(h');
  }

  /** Putting a value of the heap into one of its nodes keeps the heap valid. */
  lemma PutNodeValid(h: Heap, next: NodeId, id: NodeId, k: string, v: Val)
    requires ValidHeap(h, next) && id in h && InHeap(h, v)
    ensures ValidHeap(h[id := Put(h[id], k, v)], next)
  {
    var h' := h[id := Put(h[id], k, v)];
    forall j | j in h' ensures AllInHeap(h', h'[j]) {
      EntriesInHeap(h, Obj(j));
      if j == id {
        PutInHeap(h, h[j], k, v);
      }
    }
    ClosedFromAllIn(h');
  }

  /**
   * The mutable document: the heap of nodes, and `next`, an identity that no
   * node uses yet (where the next object literal is allocated).
   */
  class Document {
    var nodes: Heap
    var next: NodeId

    ghost predicate Valid()
      reads this
    {
      ValidHeap(nodes, next)
    }

    /** A document holding the given nodes. */
    constructor (h: Heap, n: NodeId)
      requires forall id :: id in h ==> id < n
      requires Closed(h) && DistinctNodes(h)
      ensures Valid()
      ensures nodes == h && next == n
    {
      nodes := h;
      next := n;
    }

    /** An object literal: a new node holding `es`, at the first unused identity. */
    method NewObject(es: Entries) returns (id: NodeId)
      modifies this
      ensures id == old(next) && next == old(next) + 1
      ensures nodes == old(nodes)[id := es]
      ensures old(Valid()) && AllInHeap(old(nodes), es) && DistinctKeys(es) ==> Valid()
    {
      if Valid() && AllInHeap(nodes, es) && DistinctKeys(es) {
        NewNodeValid(nodes, next, es);
      }
      id := next;
      nodes := nodes[id := es];
      next := next + 1;
    }

    /** `obj[k] = v` on the node `id`. */
    method SetProperty(id: NodeId, k: string, v: Val)
      requires id in nodes
      modifies this
      ensures nodes == old(nodes)[id := Put(old(nodes)[id], k, v)]
      ensures next == old(next)
      ensures old(Valid()) && InHeap(old(nodes), v) ==> Valid()
    {
      if Valid() && InHeap(nodes, v) {
        PutNodeValid(nodes, next, id, k, v);
      }
      nodes := nodes[id := Put(nodes[id], k, v)];
    }
  }
}
