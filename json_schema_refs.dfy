/**
 * The local `$ref` resolver: `getValueAtPath`, `findRefs`, `resolveRefs`
 * and `hydrateRefs`.
 *
 * Pointers are `'#'` followed by `/`-separated keys, in the fragment style
 * of section 6 of RFC 6901, but without the `~0` / `~1` escapes: a pointer
 * is split on every `/`.
 *
 * `findRefs` and `resolveRefs` are methods over a `Document`; each is
 * proved equal to a function (`FindNode`, `Resolve`) that the lemmas of
 * this module are about.
 */
module JsonSchemaRefs {
  import opened Wrappers
  import opened Strings
  import opened JsonDoc

  /** A reference edge: the pointer of the slot holding a `$ref` node, and what its `$ref` holds. */
  type Ref = (string, Val)

  // =====================================================================
  // getValueAtPath

  /**
   * `getValueAtPath(obj, path)`: walk `path` from `v`, stopping early (and
   * answering the value reached) at an empty path or a falsy value.
   */
  function GetValueAtPath(h: Heap, v: Val, path: seq<string>): Val
    decreases |path|
  {
    if |path| == 0 || !Truthy(v) then v
    else GetValueAtPath(h, Get(h, v, path[0]), path[1..])
  }

  /** The keys `sourceRef.split('/').slice(1)` walks. */
  function SourcePath(s: string): seq<string> {
    Split(s, "/")[1..]
  }

  /** `targetRef.slice(targetRef.lastIndexOf('/') + 1)`: the last `/`-segment. */
  function TargetKey(t: string): string {
    LastPiece(t, "/")
  }

  /** `targetRef.split('/').slice(1, -1)`: the keys leading to the slot's parent. */
  function TargetParentPath(t: string): seq<string> {
    var parts := Split(t, "/");
    if |parts| < 2 then [] else parts[1..|parts| - 1]
  }

  /** Walking one more key from a truthy value is one more property access. */
  lemma {:induction false} GetValueAtPathAppend(h: Heap, v: Val, path: seq<string>, k: string)
    requires Truthy(GetValueAtPath(h, v, path))
    ensures GetValueAtPath(h, v, path + [k]) == Get(h, GetValueAtPath(h, v, path), k)
    decreases |path|
  {
    if |path| == 0 {
      assert path + [k] == [k];
      assert [k][1..] == [];
    } else {
      assert Truthy(v);
      assert (path + [k])[0] == path[0];
      assert (path + [k])[1..] == path[1..] + [k];
      GetValueAtPathAppend(h, Get(h, v, path[0]), path[1..], k);
    }
  }

  /** The pointer `'#'` names the root itself. */
  lemma RootPointer(h: Heap, root: Val)
    ensures SourcePath("#") == []
    ensures GetValueAtPath(h, root, SourcePath("#")) == root
  {
    NoOccurrenceOfChar("#", '/');
    SplitWithoutSeparator("#", "/", "");
  }

  // =====================================================================
  // findRefs

  /** Every edge whose source is the pointer `p` now has source `t`. */
  function Retarget(refs: seq<Ref>, p: string, t: Val): (r: seq<Ref>)
    ensures |r| == |refs|
    ensures forall i :: 0 <= i < |refs| ==>
      r[i] == if refs[i].1 == Str(p) then (refs[i].0, t) else refs[i]
  {
    seq(|refs|, i requires 0 <= i < |refs| =>
      if refs[i].1 == Str(p) then (refs[i].0, t) else refs[i])
  }

  /** `refs.push([keyPath, value.$ref])` and the loop that follows it. */
  function RecordRef(refs: seq<Ref>, keyPath: string, t: Val): seq<Ref> {
    Retarget(refs + [(keyPath, t)], keyPath, t)
  }

  function NodeEntries(h: Heap, id: NodeId): Entries {
    if id in h then h[id] else []
  }

  /** `findRefs(obj, refs, path)` on the node `id`. */
  function FindNode(h: Heap, id: NodeId, refs: seq<Ref>, path: string): seq<Ref>
    requires Ranked(h)
    decreases id, |NodeEntries(h, id)| + 1
  {
    FindFrom(h, id, 0, refs, path)
  }

  /** The remaining iterations of the loop over the entries of `id`, from entry `i`. */
  function FindFrom(h: Heap, id: NodeId, i: nat, refs: seq<Ref>, path: string): seq<Ref>
    requires Ranked(h)
    requires i <= |NodeEntries(h, id)|
    decreases id, |NodeEntries(h, id)| - i
  {
    var es := NodeEntries(h, id);
    if i == |es| then refs
    else
      var value := es[i].1;
      if !value.Obj? then FindFrom(h, id, i + 1, refs, path)
      else
        var keyPath := path + "/" + es[i].0;
        var r := Get(h, value, "$ref");
        var acc := if Truthy(r) then RecordRef(refs, keyPath, r)
                   else FindNode(h, value.id, refs, keyPath);
        FindFrom(h, id, i + 1, acc, path)
  }

  /**
   * `findRefs` on the document: the accumulator is threaded through the
   * calls and returned; the edges it already held keep their target.
   */
  method FindRefs(doc: Document, id: NodeId, refs0: seq<Ref>, path: string) returns (refs: seq<Ref>)
    requires Ranked(doc.nodes)
    ensures refs == FindNode(doc.nodes, id, refs0, path)
    decreases id
  {
    var es := NodeEntries(doc.nodes, id);
    refs := refs0;
    var i := 0;
    while i < |es|
      invariant 0 <= i <= |es|
      invariant FindFrom(doc.nodes, id, i, refs, path) == FindNode(doc.nodes, id, refs0, path)
    {
      var key := es[i].0;
      var value := es[i].1;
      if value.Obj? {
        var keyPath := path + "/" + key;
        var r := Get(doc.nodes, value, "$ref");
        if Truthy(r) {
          refs := refs + [(keyPath, r)];
          ghost var pushed := refs;
          var j := 0;
          while j < |refs|
            invariant 0 <= j <= |refs| == |pushed|
            invariant forall m :: 0 <= m < j ==> refs[m] == Retarget(pushed, keyPath, r)[m]
            invariant forall m :: j <= m < |refs| ==> refs[m] == pushed[m]
          {
            if refs[j].1 == Str(keyPath) {
              refs := refs[j := (refs[j].0, r)];
            }
            j := j + 1;
          }
          assert refs == RecordRef(pushed[..|pushed| - 1], keyPath, r) by {
            assert pushed[..|pushed| - 1] + [(keyPath, r)] == pushed;
          }
        } else {
          refs := FindRefs(doc, value.id, refs, keyPath);
        }
      }
      i := i + 1;
    }
  }

  /** `findRefs` only appends edges and never changes the target of an edge it was given. */
  lemma {:induction false} FindFromExtends(h: Heap, id: NodeId, i: nat, refs: seq<Ref>, path: string)
    requires Ranked(h) && i <= |NodeEntries(h, id)|
    ensures |FindFrom(h, id, i, refs, path)| >= |refs|
    ensures forall m :: 0 <= m < |refs| ==> FindFrom(h, id, i, refs, path)[m].0 == refs[m].0
    decreases id, |NodeEntries(h, id)| - i
  {
    var es := NodeEntries(h, id);
    if i < |es| {
      var value := es[i].1;
      if value.Obj? {
        var keyPath := path + "/" + es[i].0;
        var r := Get(h, value, "$ref");
        var acc := if Truthy(r) then RecordRef(refs, keyPath, r)
                   else FindNode(h, value.id, refs, keyPath);
        if !Truthy(r) {
          FindFromExtends(h, value.id, 0, refs, keyPath);
        }
        FindFromExtends(h, id, i + 1, acc, path);
      } else {
        FindFromExtends(h, id, i + 1, refs, path);
      }
    }
  }

  lemma FindNodeExtends(h: Heap, id: NodeId, refs: seq<Ref>, path: string)
    requires Ranked(h)
    ensures |FindNode(h, id, refs, path)| >= |refs|
    ensures forall m :: 0 <= m < |refs| ==> FindNode(h, id, refs, path)[m].0 == refs[m].0
  {
    FindFromExtends(h, id, 0, refs, path);
  }

  /**
   * Right after an edge `(P, T)` is recorded, no edge points at `P` any
   * more (unless `T` is `P` itself), the new edge is last, and edges that
   * did not point at `P` are untouched.
   */
  lemma RecordRefCollapses(refs: seq<Ref>, p: string, t: Val)
    ensures var r := RecordRef(refs, p, t);
      && |r| == |refs| + 1
      && r[|refs|] == (p, t)
      && (t != Str(p) ==> forall m :: 0 <= m < |r| ==> r[m].1 != Str(p))
      && (forall m :: 0 <= m < |refs| && refs[m].1 != Str(p) ==> r[m] == refs[m])
      && (forall m :: 0 <= m < |refs| && refs[m].1 == Str(p) ==> r[m] == (refs[m].0, t))
  {
  }

  /** Keys of the heap contain no `/`, so that pointers built from them split back into them. */
  ghost predicate SlashFreeKeys(h: Heap) {
    forall id, i :: id in h && 0 <= i < |h[id]| ==> '/' !in h[id][i].0
  }

  /**
   * The target pointer of an edge names the slot `resolveRefs` will write:
   * walking its parent path from the root and reading its last key yields a
   * node whose `$ref` is truthy.
   */
  ghost predicate LocatesRefNode(h: Heap, root: NodeId, p: string) {
    var slot := Get(h, GetValueAtPath(h, Obj(root), TargetParentPath(p)), TargetKey(p));
    |Split(p, "/")| >= 2 && slot.Obj? && Truthy(Get(h, slot, "$ref"))
  }

  /**
   * The pointer `path + "/" + key` of an entry of the node at `path`: its
   * parent path and last key lead back to the entry, and walking all of it
   * reaches the entry's value.
   */
  lemma ChildPointer(h: Heap, root: NodeId, id: NodeId, i: nat, path: string)
    requires DistinctNodes(h) && SlashFreeKeys(h) && id in h && i < |h[id]|
    requires GetValueAtPath(h, Obj(root), Split(path, "/")[1..]) == Obj(id)
    ensures var keyPath := path + "/" + h[id][i].0;
      && |Split(keyPath, "/")| >= 2
      && GetValueAtPath(h, Obj(root), TargetParentPath(keyPath)) == Obj(id)
      && TargetKey(keyPath) == h[id][i].0
      && Get(h, Obj(id), h[id][i].0) == h[id][i].1
      && GetValueAtPath(h, Obj(root), Split(keyPath, "/")[1..]) == h[id][i].1
  {
    var key := h[id][i].0;
    var keyPath := path + "/" + key;
    assert '/' !in key;
    SplitPathAppend(path, key);
    var parts := Split(keyPath, "/");
    assert parts[1..|parts| - 1] == Split(path, "/")[1..];
    assert parts[1..] == Split(path, "/")[1..] + [key];
    LookupDistinct(h[id], i);
    GetValueAtPathAppend(h, Obj(root), Split(path, "/")[1..], key);
  }

  /** The precondition shared by the lemmas about where pointers lead. */
  ghost predicate AtPointer(h: Heap, root: NodeId, id: NodeId, path: string) {
    && Ranked(h) && Closed(h) && DistinctNodes(h) && SlashFreeKeys(h) && id in h
    && GetValueAtPath(h, Obj(root), Split(path, "/")[1..]) == Obj(id)
  }

  /** Every edge added from entry `i` onwards locates a `$ref` node. */
  ghost predicate NewEdgesLocate(h: Heap, root: NodeId, refs: seq<Ref>, out: seq<Ref>) {
    |out| >= |refs| && forall m :: |refs| <= m < |out| ==> LocatesRefNode(h, root, out[m].0)
  }

  lemma {:induction false} FindFromLocates(h: Heap, root: NodeId, id: NodeId, i: nat, refs: seq<Ref>, path: string)
    requires AtPointer(h, root, id, path)
    requires i <= |NodeEntries(h, id)|
    ensures NewEdgesLocate(h, root, refs, FindFrom(h, id, i, refs, path))
    decreases id, |NodeEntries(h, id)| - i, 1
  {
    var es := NodeEntries(h, id);
    if i < |es| {
      if !es[i].1.Obj? {
        FindFromLocates(h, root, id, i + 1, refs, path);
      } else if Truthy(Get(h, es[i].1, "$ref")) {
        FindEntryRefLocates(h, root, id, i, refs, path);
      } else {
        FindEntryDescendLocates(h, root, id, i, refs, path);
      }
    }
  }

  /** Entry `i` holds a `$ref` node: its edge is recorded, then the loop goes on. */
  lemma {:induction false} FindEntryRefLocates(h: Heap, root: NodeId, id: NodeId, i: nat, refs: seq<Ref>, path: string)
    requires AtPointer(h, root, id, path)
    requires i < |NodeEntries(h, id)| && h[id][i].1.Obj? && Truthy(Get(h, h[id][i].1, "$ref"))
    ensures NewEdgesLocate(h, root, refs, FindFrom(h, id, i, refs, path))
    decreases id, |NodeEntries(h, id)| - i, 0
  {
    var es := NodeEntries(h, id);
    var keyPath := path + "/" + es[i].0;
    var r := Get(h, es[i].1, "$ref");
    var acc := RecordRef(refs, keyPath, r);
    RefEntryLocates(h, root, id, i, path);
    RecordRefCollapses(refs, keyPath, r);
    assert FindFrom(h, id, i, refs, path) == FindFrom(h, id, i + 1, acc, path);
    FindFromLocates(h, root, id, i + 1, acc, path);
    FindFromExtends(h, id, i + 1, acc, path);
    NewEdgesAfterRecord(h, root, refs, acc, FindFrom(h, id, i + 1, acc, path));
  }

  /** The pointer of an entry holding a `$ref` node locates that node. */
  lemma RefEntryLocates(h: Heap, root: NodeId, id: NodeId, i: nat, path: string)
    requires AtPointer(h, root, id, path)
    requires i < |h[id]| && h[id][i].1.Obj? && Truthy(Get(h, h[id][i].1, "$ref"))
    ensures LocatesRefNode(h, root, path + "/" + h[id][i].0)
  {
    ChildPointer(h, root, id, i, path);
  }

  /** Recording one located edge before edges that are all located keeps them all located. */
  lemma NewEdgesAfterRecord(h: Heap, root: NodeId, refs: seq<Ref>, acc: seq<Ref>, out: seq<Ref>)
    requires |acc| == |refs| + 1 && LocatesRefNode(h, root, acc[|refs|].0)
    requires NewEdgesLocate(h, root, acc, out)
    requires forall m :: 0 <= m < |acc| ==> out[m].0 == acc[m].0
    ensures NewEdgesLocate(h, root, refs, out)
  {
    forall m | |refs| <= m < |out| ensures LocatesRefNode(h, root, out[m].0) {
      if m == |refs| {
        assert out[m].0 == acc[|refs|].0;
      }
    }
  }

  /** Entry `i` is an object without `$ref`: the search descends into it, then goes on. */
  lemma {:induction false} FindEntryDescendLocates(h: Heap, root: NodeId, id: NodeId, i: nat, refs: seq<Ref>, path: string)
    requires AtPointer(h, root, id, path)
    requires i < |NodeEntries(h, id)| && h[id][i].1.Obj? && !Truthy(Get(h, h[id][i].1, "$ref"))
    ensures NewEdgesLocate(h, root, refs, FindFrom(h, id, i, refs, path))
    decreases id, |NodeEntries(h, id)| - i, 0
  {
    var es := NodeEntries(h, id);
    var value := es[i].1;
    var keyPath := path + "/" + es[i].0;
    ChildPointer(h, root, id, i, path);
    var acc := FindNode(h, value.id, refs, keyPath);
    assert FindFrom(h, id, i, refs, path) == FindFrom(h, id, i + 1, acc, path);
    assert value.id < id;
    FindFromLocates(h, root, value.id, 0, refs, keyPath);
    FindFromLocates(h, root, id, i + 1, acc, path);
    FindFromExtends(h, id, i + 1, acc, path);
    var out := FindFrom(h, id, i + 1, acc, path);
    forall m | |refs| <= m < |out| ensures LocatesRefNode(h, root, out[m].0) {
      if m < |acc| {
        assert out[m].0 == acc[m].0;
      }
    }
  }

  /**
   * Every edge `findRefs(root, [], '#')` produces names, by its target
   * pointer, a slot of the document holding a `$ref` node.
   */
  lemma FindRefsLocate(h: Heap, root: NodeId)
    requires Ranked(h) && Closed(h) && DistinctNodes(h) && SlashFreeKeys(h) && root in h
    ensures forall e :: e in FindNode(h, root, [], "#") ==> LocatesRefNode(h, root, e.0)
  {
    RootPointer(h, Obj(root));
    assert Split("#", "/")[1..] == [];
    FindFromLocates(h, root, root, 0, [], "#");
    var out := FindNode(h, root, [], "#");
    forall e | e in out ensures LocatesRefNode(h, root, e.0) {
      var m :| 0 <= m < |out| && out[m] == e;
    }
  }

  // =====================================================================
  // resolveRefs: options

  /** `merge`: `false` or absent, `true`, `'favorTarget'`, `'favorSource'`. */
  datatype MergeMode = NoMerge | Merge | FavorTarget | FavorSource

  /** `keepRefs`: a boolean (absent is `false`), or the key to keep the pointer under. */
  datatype KeepRefs = KeepFlag(on: bool) | KeepName(name: string)

  /** `unresolvable`: absent, `'skip'`, `'warn'` or `'throw'`. */
  datatype OnUnresolvable = Unset | Skip | Warn | Throw

  datatype Options = Options(
    merge: MergeMode,
    keepRefs: KeepRefs,
    unresolvable: OnUnresolvable,
    refFilter: Option<Ref -> bool>)

  /** The default parameter of `resolveRefs`, used only when no options object is passed. */
  const DefaultOptions: Options := Options(NoMerge, KeepFlag(false), Warn, None)

  function EffectiveOptions(opts: Option<Options>): Options {
    match opts
    case None => DefaultOptions
    case Some(o) => o
  }

  predicate MergeOn(m: MergeMode) {
    m != NoMerge
  }

  /** Truthiness of `keepRefs`: `true`, or a non-empty string. */
  predicate KeepOn(k: KeepRefs) {
    match k
    case KeepFlag(b) => b
    case KeepName(n) => n != ""
  }

  /** The key a kept pointer is stored under. */
  function MarkerKey(k: KeepRefs): string {
    if k.KeepName? then k.name else "$ref"
  }

  // =====================================================================
  // resolveRefs: merging

  /** The index `Array.prototype.slice` uses for `i` on an array of length `len`. */
  function SliceIndex(len: nat, i: int): (c: nat)
    ensures c <= len
    ensures 0 <= i <= len ==> c == i
    ensures i < 0 && len + i >= 0 ==> c == len + i
  {
    if i < 0 then (if len + i < 0 then 0 else len + i)
    else if i > len then len
    else i
  }

  /**
   * The entries the merge folds, in order: the source's before the
   * target's (`favorTarget`), after them (`favorSource`), or in place of
   * the target's `$ref` entry. For a target without `$ref` the index is -1
   * and the slices cut before the target's last entry.
   */
  function Layout(mode: MergeMode, tE: Entries, sE: Entries): Entries {
    match mode
    case FavorTarget => sE + tE
    case FavorSource => tE + sE
    case _ =>
      var c := SliceIndex(|tE|, IndexOfKey(tE, "$ref"));
      tE[..c] + sE + tE[c..]
  }

  /** The fold keeps an entry unless it is a `$ref` and `keepRefs` is falsy. */
  predicate KeepsEntry(k: string, keep: KeepRefs) {
    k != "$ref" || KeepOn(keep)
  }

  /** The key a kept entry is written under. */
  function RenameKey(k: string, keep: KeepRefs): string {
    if k == "$ref" && keep.KeepName? then keep.name else k
  }

  /** The entry is kept by the fold and written under `k`. */
  predicate Names(e: Entry, keep: KeepRefs, k: string) {
    KeepsEntry(e.0, keep) && RenameKey(e.0, keep) == k
  }

  /** `entries.reduce((acc, [key, value]) => ..., {})`. */
  function Assemble(es: Entries, keep: KeepRefs): Entries
    decreases |es|
  {
    if |es| == 0 then []
    else
      var acc := Assemble(es[..|es| - 1], keep);
      var e := es[|es| - 1];
      if KeepsEntry(e.0, keep) then Put(acc, RenameKey(e.0, keep), e.1) else acc
  }

  /** The index of the last entry written under `k`, or -1. */
  function LastNaming(es: Entries, keep: KeepRefs, k: string): (r: int)
    ensures -1 <= r < |es|
    ensures r >= 0 ==> Names(es[r], keep, k)
    ensures forall j :: r < j < |es| ==> !Names(es[j], keep, k)
    decreases |es|
  {
    if |es| == 0 then -1
    else if Names(es[|es| - 1], keep, k) then |es| - 1
    else LastNaming(es[..|es| - 1], keep, k)
  }

  /**
   * The merged object has key `k` exactly when some kept entry is written
   * under `k`, and then it holds the value of the last such entry: later
   * entries overwrite earlier ones.
   */
  lemma {:induction false} AssembleLookup(es: Entries, keep: KeepRefs, k: string)
    ensures HasKey(Assemble(es, keep), k) <==> LastNaming(es, keep, k) >= 0
    ensures Lookup(Assemble(es, keep), k) ==
      if LastNaming(es, keep, k) < 0 then Undef else es[LastNaming(es, keep, k)].1
    decreases |es|
  {
    if |es| > 0 {
      var init := es[..|es| - 1];
      var e := es[|es| - 1];
      AssembleLookup(init, keep, k);
      var acc := Assemble(init, keep);
      if KeepsEntry(e.0, keep) {
        var key := RenameKey(e.0, keep);
        HasKeyInKeys(acc, k);
        HasKeyInKeys(Put(acc, key, e.1), k);
        if key != k {
          assert HasKey(Put(acc, key, e.1), k) <==> HasKey(acc, k);
        }
      }
    }
  }

  /** The merged object has no repeated key, and holds only values the entries hold. */
  lemma {:induction false} AssembleWellFormed(h: Heap, es: Entries, keep: KeepRefs)
    requires AllInHeap(h, es)
    ensures DistinctKeys(Assemble(es, keep))
    ensures AllInHeap(h, Assemble(es, keep))
    decreases |es|
  {
    if |es| > 0 {
      var init := es[..|es| - 1];
      assert AllInHeap(h, init) by {
        forall e | e in init ensures InHeap(h, e.1) { assert e in es; }
      }
      AssembleWellFormed(h, init, keep);
      assert es[|es| - 1] in es;
    }
  }

  /** An ordinary key: neither `$ref` nor the key a kept pointer is renamed to. */
  predicate PlainKey(k: string, keep: KeepRefs) {
    k != "$ref" && (keep.KeepName? ==> k != keep.name)
  }

  lemma {:induction false} LastNamingPlain(es: Entries, keep: KeepRefs, k: string)
    requires PlainKey(k, keep) && DistinctKeys(es)
    ensures LastNaming(es, keep, k) >= 0 <==> HasKey(es, k)
    ensures LastNaming(es, keep, k) >= 0 ==> es[LastNaming(es, keep, k)].1 == Lookup(es, k)
  {
    var r := LastNaming(es, keep, k);
    if r >= 0 {
      assert es[r].0 == k;
      LookupDistinct(es, r);
    } else if HasKey(es, k) {
      var i := IndexOfKey(es, k);
      assert Names(es[i], keep, k);
    }
  }

  lemma {:induction false} LastNamingAppend(a: Entries, b: Entries, keep: KeepRefs, k: string)
    ensures LastNaming(a + b, keep, k) ==
      if LastNaming(b, keep, k) >= 0 then |a| + LastNaming(b, keep, k) else LastNaming(a, keep, k)
    decreases |b|
  {
    if |b| > 0 {
      assert (a + b)[..|a + b| - 1] == a + b[..|b| - 1];
      assert (a + b)[|a + b| - 1] == b[|b| - 1];
      LastNamingAppend(a, b[..|b| - 1], keep, k);
    } else {
      assert a + b == a;
    }
  }

  /** The value an ordinary key takes in the folded concatenation `a + b`: `b` wins. */
  lemma PlainKeyInConcat(a: Entries, b: Entries, keep: KeepRefs, k: string)
    requires PlainKey(k, keep) && DistinctKeys(a) && DistinctKeys(b)
    ensures HasKey(Assemble(a + b, keep), k) <==> HasKey(a, k) || HasKey(b, k)
    ensures Lookup(Assemble(a + b, keep), k) ==
      if HasKey(b, k) then Lookup(b, k) else Lookup(a, k)
  {
    AssembleAppendPlain(a, b, keep, k);
    AssemblePlain(a, keep, k);
  }

  /** Folding entries with distinct keys keeps every ordinary key and its value. */
  lemma AssemblePlain(a: Entries, keep: KeepRefs, k: string)
    requires PlainKey(k, keep) && DistinctKeys(a)
    ensures HasKey(Assemble(a, keep), k) <==> HasKey(a, k)
    ensures Lookup(Assemble(a, keep), k) == Lookup(a, k)
  {
    AssembleLookup(a, keep, k);
    LastNamingPlain(a, keep, k);
    if !HasKey(a, k) {
      assert Lookup(a, k) == Undef;
    }
  }

  /** Folding `a + b`: an ordinary key of `b` takes its value from `b`, any other from the fold of `a`. */
  lemma AssembleAppendPlain(a: Entries, b: Entries, keep: KeepRefs, k: string)
    requires PlainKey(k, keep) && DistinctKeys(b)
    ensures HasKey(Assemble(a + b, keep), k) <==> HasKey(Assemble(a, keep), k) || HasKey(b, k)
    ensures Lookup(Assemble(a + b, keep), k) ==
      if HasKey(b, k) then Lookup(b, k) else Lookup(Assemble(a, keep), k)
  {
    AssembleLookup(a + b, keep, k);
    AssembleLookup(a, keep, k);
    LastNamingPlain(b, keep, k);
    LastNamingEntry(a, b, keep, k);
  }

  /** The entry of `a + b` last written under `k` is `b`'s when `b` has one, and `a`'s otherwise. */
  lemma LastNamingEntry(a: Entries, b: Entries, keep: KeepRefs, k: string)
    ensures var r := LastNaming(a + b, keep, k); var rb := LastNaming(b, keep, k);
      && (rb >= 0 ==> r >= 0 && (a + b)[r] == b[rb])
      && (rb < 0 ==> r == LastNaming(a, keep, k) && (r >= 0 ==> (a + b)[r] == a[r]))
  {
    LastNamingAppend(a, b, keep, k);
    var rb := LastNaming(b, keep, k);
    var ra := LastNaming(a, keep, k);
    if rb >= 0 {
      assert (a + b)[|a| + rb] == b[rb];
    } else if ra >= 0 {
      assert (a + b)[ra] == a[ra];
    }
  }

  /**
   * `favorTarget`: an ordinary key of the target keeps the target's value;
   * `favorSource`: an ordinary key of the source takes the source's value.
   * Either way the merged object has exactly the ordinary keys of both.
   */
  lemma MergeFavored(mode: MergeMode, tE: Entries, sE: Entries, keep: KeepRefs, k: string)
    requires mode == FavorTarget || mode == FavorSource
    requires PlainKey(k, keep) && DistinctKeys(tE) && DistinctKeys(sE)
    ensures var m := Assemble(Layout(mode, tE, sE), keep);
      && (HasKey(m, k) <==> HasKey(tE, k) || HasKey(sE, k))
      && (mode == FavorTarget ==> Lookup(m, k) == if HasKey(tE, k) then Lookup(tE, k) else Lookup(sE, k))
      && (mode == FavorSource ==> Lookup(m, k) == if HasKey(sE, k) then Lookup(sE, k) else Lookup(tE, k))
  {
    if mode == FavorTarget {
      PlainKeyInConcat(sE, tE, keep, k);
    } else {
      PlainKeyInConcat(tE, sE, keep, k);
    }
  }

  /** The value an ordinary key takes in the folded concatenation `a + b + c`: the last part holding it wins. */
  lemma PlainKeyInConcat3(a: Entries, b: Entries, c: Entries, keep: KeepRefs, k: string)
    requires PlainKey(k, keep) && DistinctKeys(a) && DistinctKeys(b) && DistinctKeys(c)
    ensures HasKey(Assemble(a + b + c, keep), k) <==> HasKey(a, k) || HasKey(b, k) || HasKey(c, k)
    ensures Lookup(Assemble(a + b + c, keep), k) ==
      if HasKey(c, k) then Lookup(c, k) else if HasKey(b, k) then Lookup(b, k) else Lookup(a, k)
  {
    AssembleAppendPlain(a + b, c, keep, k);
    AssembleAppendPlain(a, b, keep, k);
    AssemblePlain(a, keep, k);
  }

  /** With the target's first `$ref` after `pre`, the layout puts the source in its place. */
  lemma LayoutInPlace(tE: Entries, sE: Entries, pre: Entries, r: Val, post: Entries)
    requires tE == pre + [("$ref", r)] + post && !HasKey(pre, "$ref")
    ensures Layout(Merge, tE, sE) == pre + sE + ([("$ref", r)] + post)
  {
    assert IndexOfKey(tE, "$ref") == |pre| by {
      assert tE[|pre|].0 == "$ref";
      forall j | 0 <= j < |pre| ensures tE[j].0 != "$ref" { assert tE[j] == pre[j]; }
    }
    assert tE[..|pre|] == pre;
    assert tE[|pre|..] == [("$ref", r)] + post;
  }

  /**
   * Plain `merge: true` on a target `pre + [$ref] + post`: the source's
   * entries take the place of the `$ref` entry, so the source overrides
   * the target's keys before `$ref` and the target's keys after `$ref`
   * override the source.
   */
  lemma MergeInPlace(tE: Entries, sE: Entries, keep: KeepRefs, k: string, pre: Entries, r: Val, post: Entries)
    requires tE == pre + [("$ref", r)] + post && !HasKey(pre, "$ref")
    requires PlainKey(k, keep) && DistinctKeys(tE) && DistinctKeys(sE)
    ensures var m := Assemble(Layout(Merge, tE, sE), keep);
      && (HasKey(m, k) <==> HasKey(tE, k) || HasKey(sE, k))
      && Lookup(m, k) ==
         if HasKey(post, k) then Lookup(post, k)
         else if HasKey(sE, k) then Lookup(sE, k)
         else Lookup(pre, k)
  {
    var tail := [("$ref", r)] + post;
    LayoutInPlace(tE, sE, pre, r, post);
    assert tE == pre + tail;
    DistinctSlices(pre, tail, tE);
    PlainKeyInConcat3(pre, sE, tail, keep, k);
    HasKeyConcat(pre, tail, k);
    HasKeyConcat([("$ref", r)], post, k);
    LookupConcat([("$ref", r)], post, k);
  }

  /**
   * With `keepRefs` truthy, the merged object keeps the target's own
   * pointer under the marker key, provided nothing else is written there.
   */
  lemma MergeKeepsPointer(mode: MergeMode, tE: Entries, sE: Entries, keep: KeepRefs)
    requires mode != FavorSource && KeepOn(keep) && HasKey(tE, "$ref") && DistinctKeys(tE)
    requires !HasKey(sE, "$ref") && !HasKey(sE, MarkerKey(keep))
    requires keep.KeepName? ==> !HasKey(tE, keep.name)
    ensures Lookup(Assemble(Layout(mode, tE, sE), keep), MarkerKey(keep)) == Lookup(tE, "$ref")
  {
    var t := IndexOfKey(tE, "$ref");
    var i := if mode == FavorTarget then |sE| + t else t + |sE|;
    if mode == FavorTarget {
      MarkerOnlyBefore(tE, sE, keep);
    } else {
      MarkerOnlyInPlace(tE, sE, keep);
    }
    assert Layout(mode, tE, sE)[i] == tE[t];
    OnlyNamingLookup(Layout(mode, tE, sE), keep, MarkerKey(keep), i);
  }

  /** When exactly one entry is written under `k`, the merged object holds its value there. */
  lemma OnlyNamingLookup(es: Entries, keep: KeepRefs, k: string, i: nat)
    requires i < |es| && Names(es[i], keep, k)
    requires forall j :: 0 <= j < |es| && j != i ==> !Names(es[j], keep, k)
    ensures Lookup(Assemble(es, keep), k) == es[i].1
  {
    AssembleLookup(es, keep, k);
  }

  /** In `sE + tE`, only the target's `$ref` entry is written under the marker. */
  lemma MarkerOnlyBefore(tE: Entries, sE: Entries, keep: KeepRefs)
    requires KeepOn(keep) && HasKey(tE, "$ref") && DistinctKeys(tE)
    requires !HasKey(sE, "$ref") && !HasKey(sE, MarkerKey(keep))
    requires keep.KeepName? ==> !HasKey(tE, keep.name)
    ensures var lay := sE + tE; var i := |sE| + IndexOfKey(tE, "$ref");
      Names(lay[i], keep, MarkerKey(keep)) &&
      forall j :: 0 <= j < |lay| && j != i ==> !Names(lay[j], keep, MarkerKey(keep))
  {
    var lay := sE + tE;
    var t := IndexOfKey(tE, "$ref");
    assert lay[|sE| + t] == tE[t];
    forall j | 0 <= j < |lay| && j != |sE| + t ensures !Names(lay[j], keep, MarkerKey(keep)) {
      if j < |sE| {
        assert lay[j] == sE[j];
        OtherEntryNotMarker(sE, j, keep);
      } else {
        assert lay[j] == tE[j - |sE|];
        OtherRefEntry(tE, t, j - |sE|, keep);
      }
    }
  }

  /** In the in-place layout, only the target's `$ref` entry is written under the marker. */
  lemma MarkerOnlyInPlace(tE: Entries, sE: Entries, keep: KeepRefs)
    requires KeepOn(keep) && HasKey(tE, "$ref") && DistinctKeys(tE)
    requires !HasKey(sE, "$ref") && !HasKey(sE, MarkerKey(keep))
    requires keep.KeepName? ==> !HasKey(tE, keep.name)
    ensures var lay := Layout(Merge, tE, sE); var i := IndexOfKey(tE, "$ref") + |sE|;
      i < |lay| && lay[i] == tE[IndexOfKey(tE, "$ref")] &&
      Names(lay[i], keep, MarkerKey(keep)) &&
      forall j :: 0 <= j < |lay| && j != i ==> !Names(lay[j], keep, MarkerKey(keep))
  {
    var t := IndexOfKey(tE, "$ref");
    var lay := tE[..t] + sE + tE[t..];
    assert Layout(Merge, tE, sE) == lay;
    assert lay[t + |sE|] == tE[t];
    forall j | 0 <= j < |lay| && j != t + |sE| ensures !Names(lay[j], keep, MarkerKey(keep)) {
      if j < t {
        assert lay[j] == tE[j];
        OtherRefEntry(tE, t, j, keep);
      } else if j < t + |sE| {
        assert lay[j] == sE[j - t];
        OtherEntryNotMarker(sE, j - t, keep);
      } else {
        assert lay[j] == tE[j - |sE|];
        OtherRefEntry(tE, t, j - |sE|, keep);
      }
    }
  }

  /** An entry of a list without `$ref` and without the marker key is not written under the marker. */
  lemma OtherEntryNotMarker(sE: Entries, q: nat, keep: KeepRefs)
    requires q < |sE| && !HasKey(sE, "$ref") && !HasKey(sE, MarkerKey(keep))
    ensures !Names(sE[q], keep, MarkerKey(keep))
  {
    assert sE[q].0 != "$ref";
    assert sE[q].0 != MarkerKey(keep);
  }

  /** In a target with distinct keys, no entry but its `$ref` is written under the marker. */
  lemma OtherRefEntry(tE: Entries, t: int, q: nat, keep: KeepRefs)
    requires t == IndexOfKey(tE, "$ref") && 0 <= t < |tE| && q < |tE| && q != t && DistinctKeys(tE)
    requires keep.KeepName? ==> !HasKey(tE, keep.name)
    ensures !Names(tE[q], keep, MarkerKey(keep))
  {
    assert tE[q].0 != "$ref";
    if keep.KeepName? {
      assert tE[q].0 != keep.name;
    }
  }

  /** With `keepRefs` falsy, no `$ref` survives the merge. */
  lemma MergeDropsRefs(mode: MergeMode, tE: Entries, sE: Entries, keep: KeepRefs)
    requires !KeepOn(keep)
    ensures !HasKey(Assemble(Layout(mode, tE, sE), keep), "$ref")
  {
    AssembleLookup(Layout(mode, tE, sE), keep, "$ref");
  }

  // =====================================================================
  // resolveRefs: one edge

  /** The document as the resolver sees it: its nodes and the next free identity. */
  datatype Store = Store(nodes: Heap, next: NodeId)

  ghost predicate ValidStore(st: Store) {
    ValidHeap(st.nodes, st.next)
  }

  /** Why `resolveRefs` stops: the string it throws, or a `TypeError` the language raises. */
  datatype ResolveError =
    | Unresolved(targetRef: string, sourceRef: string)
    | TypeError(targetRef: string)

  /** What one edge does: write the document, find no source, or fail. */
  datatype Outcome = Written(st: Store) | NotFound(sourceRef: string) | Failed(err: ResolveError)

  /** The slot `targetKey` of the node `parent` now holds a new object with entries `es`. */
  function Allocate(st: Store, parent: NodeId, key: string, es: Entries): Store
    requires parent in st.nodes
  {
    var n1 := st.nodes[st.next := es];
    Store(n1[parent := Put(st.nodes[parent], key, Obj(st.next))], st.next + 1)
  }

  /** One iteration of the loop of `resolveRefs`, for the edge `(targetRef, sourceRef)`. */
  function ResolveEdge(st: Store, root: NodeId, edge: Ref, o: Options): Outcome {
    var targetRef := edge.0;
    if !edge.1.Str? then Failed(TypeError(targetRef))
    else
      var source := GetValueAtPath(st.nodes, Obj(root), SourcePath(edge.1.s));
      if !Truthy(source) then NotFound(edge.1.s)
      else
        var targetKey := TargetKey(targetRef);
        var target := GetValueAtPath(st.nodes, Obj(root), TargetParentPath(targetRef));
        if !(target.Obj? && target.id in st.nodes) then Failed(TypeError(targetRef))
        else
          var slot := Lookup(st.nodes[target.id], targetKey);
          var both := TypeofObject(slot) && source.Obj?;
          if (MergeOn(o.merge) || KeepOn(o.keepRefs)) && both && slot.Null? then
            Failed(TypeError(targetRef))
          else if MergeOn(o.merge) && both then
            var merged := Assemble(Layout(o.merge, EntriesOf(st.nodes, slot), EntriesOf(st.nodes, source)), o.keepRefs);
            Written(Allocate(st, target.id, targetKey, merged))
          else if KeepOn(o.keepRefs) && both then
            var marked := Put(EntriesOf(st.nodes, source), MarkerKey(o.keepRefs), Get(st.nodes, slot, "$ref"));
            Written(Allocate(st, target.id, targetKey, marked))
          else
            Written(Store(st.nodes[target.id := Put(st.nodes[target.id], targetKey, source)], st.next))
  }

  // =====================================================================
  // resolveRefs: all edges

  /** The state after a prefix of the edges: the document, the warnings printed, and a failure. */
  datatype Run = Run(st: Store, warnings: seq<Ref>, failure: Option<ResolveError>)

  function Resolve(st: Store, root: NodeId, refs: seq<Ref>, o: Options): Run
    decreases |refs|
  {
    if |refs| == 0 then Run(st, [], None)
    else
      var prev := Resolve(st, root, refs[..|refs| - 1], o);
      if prev.failure.Some? then prev
      else Continue(prev, ResolveEdge(prev.st, root, refs[|refs| - 1], o), refs[|refs| - 1], o)
  }

  /** How the outcome of the edge `e` updates the run, following `unresolvable`. */
  function Continue(prev: Run, out: Outcome, e: Ref, o: Options): Run {
    match out
    case Written(st) => Run(st, prev.warnings, None)
    case Failed(err) => Run(prev.st, prev.warnings, Some(err))
    case NotFound(src) =>
      if o.unresolvable == Warn then Run(prev.st, prev.warnings + [e], None)
      else if o.unresolvable == Throw then Run(prev.st, prev.warnings, Some(Unresolved(e.0, src)))
      else prev
  }

  /** Once an edge fails, the loop is over: later edges change nothing. */
  lemma {:induction false} ResolveStopsAtFailure(st: Store, root: NodeId, refs: seq<Ref>, n: nat, o: Options)
    requires n <= |refs| && Resolve(st, root, refs[..n], o).failure.Some?
    ensures Resolve(st, root, refs, o) == Resolve(st, root, refs[..n], o)
    decreases |refs| - n
  {
    if n < |refs| {
      assert refs[..n + 1][..n] == refs[..n];
      ResolveStopsAtFailure(st, root, refs, n + 1, o);
    } else {
      assert refs[..n] == refs;
    }
  }

  /** The run over one more edge of `refs`. */
  lemma ResolvePrefixStep(st: Store, root: NodeId, refs: seq<Ref>, i: nat, o: Options)
    requires i < |refs|
    ensures var prev := Resolve(st, root, refs[..i], o);
      Resolve(st, root, refs[..i + 1], o) ==
        if prev.failure.Some? then prev else Continue(prev, ResolveEdge(prev.st, root, refs[i], o), refs[i], o)
  {
    assert refs[..i + 1][..i] == refs[..i];
  }

  /** `target[targetKey] = {...}`: a new object with entries `es` written into the slot. */
  method WriteObject(doc: Document, parent: NodeId, key: string, es: Entries)
    requires doc.Valid() && parent in doc.nodes
    modifies doc
    ensures Store(doc.nodes, doc.next) == Allocate(old(Store(doc.nodes, doc.next)), parent, key, es)
  {
    var id := doc.NewObject(es);
    doc.SetProperty(parent, key, Obj(id));
  }

  /** One iteration of the loop of `resolveRefs` on the document: what it wrote, or why it wrote nothing. */
  method ResolveEdgeOn(doc: Document, root: NodeId, e: Ref, o: Options) returns (out: Outcome)
    requires doc.Valid() && root in doc.nodes
    modifies doc
    ensures doc.Valid()
    ensures out == ResolveEdge(old(Store(doc.nodes, doc.next)), root, e, o)
    ensures Store(doc.nodes, doc.next) == if out.Written? then out.st else old(Store(doc.nodes, doc.next))
  {
    ghost var cur := Store(doc.nodes, doc.next);
    var targetRef := e.0;
    var sourceRef := e.1;
    if !sourceRef.Str? {
      return Failed(TypeError(targetRef));
    }
    var source := GetValueAtPath(doc.nodes, Obj(root), SourcePath(sourceRef.s));
    if !Truthy(source) {
      return NotFound(sourceRef.s);
    }
    var targetKey := TargetKey(targetRef);
    var target := GetValueAtPath(doc.nodes, Obj(root), TargetParentPath(targetRef));
    if !(target.Obj? && target.id in doc.nodes) {
      return Failed(TypeError(targetRef));
    }
    var slot := Lookup(doc.nodes[target.id], targetKey);
    var both := TypeofObject(slot) && source.Obj?;
    if (MergeOn(o.merge) || KeepOn(o.keepRefs)) && both && slot.Null? {
      return Failed(TypeError(targetRef));
    }
    if MergeOn(o.merge) && both {
      var merged := Assemble(Layout(o.merge, EntriesOf(doc.nodes, slot), EntriesOf(doc.nodes, source)), o.keepRefs);
      WriteObject(doc, target.id, targetKey, merged);
    } else if KeepOn(o.keepRefs) && both {
      var marked := Put(EntriesOf(doc.nodes, source), MarkerKey(o.keepRefs), Get(doc.nodes, slot, "$ref"));
      WriteObject(doc, target.id, targetKey, marked);
    } else {
      doc.SetProperty(target.id, targetKey, source);
    }
    ResolveEdgeValid(cur, root, e, o);
    out := Written(Store(doc.nodes, doc.next));
  }

  /**
   * One iteration of the loop of `resolveRefs` with its bookkeeping: the
   * warnings printed so far, and what the loop throws, if anything.
   */
  method ResolveNext(doc: Document, root: NodeId, e: Ref, o: Options, warnings: seq<Ref>)
      returns (w: seq<Ref>, failure: Option<ResolveError>)
    requires doc.Valid() && root in doc.nodes
    modifies doc
    ensures doc.Valid() && root in doc.nodes
    ensures var prev := Run(old(Store(doc.nodes, doc.next)), warnings, None);
      Run(Store(doc.nodes, doc.next), w, failure) == Continue(prev, ResolveEdge(prev.st, root, e, o), e, o)
  {
    ghost var st := Store(doc.nodes, doc.next);
    var out := ResolveEdgeOn(doc, root, e, o);
    ResolveEdgeValid(st, root, e, o);
    w, failure := warnings, None;
    match out {
      case Failed(err) =>
        failure := Some(err);
      case NotFound(src) =>
        if o.unresolvable == Warn {
          w := warnings + [e];
        } else if o.unresolvable == Throw {
          failure := Some(Unresolved(e.0, src));
        }
      case Written(_) =>
    }
  }

  /**
   * `resolveRefs(obj, refs, options)` on the document, `obj` being the node
   * `root`. It answers the warnings it printed, or what it threw.
   */
  method ResolveRefs(doc: Document, root: NodeId, refs: seq<Ref>, opts: Option<Options>)
      returns (r: Result<seq<Ref>, ResolveError>)
    requires doc.Valid() && root in doc.nodes
    modifies doc
    ensures doc.Valid()
    ensures var run := Resolve(old(Store(doc.nodes, doc.next)), root, refs, EffectiveOptions(opts));
      && Store(doc.nodes, doc.next) == run.st
      && r == if run.failure.Some? then Err(run.failure.value) else Ok(run.warnings)
  {
    var o := EffectiveOptions(opts);
    ghost var st0 := Store(doc.nodes, doc.next);
    var warnings: seq<Ref> := [];
    var i := 0;
    while i < |refs|
      invariant 0 <= i <= |refs|
      invariant doc.Valid() && root in doc.nodes
      invariant Resolve(st0, root, refs[..i], o) == Run(Store(doc.nodes, doc.next), warnings, None)
    {
      ResolvePrefixStep(st0, root, refs, i, o);
      var w, failure := ResolveNext(doc, root, refs[i], o, warnings);
      if failure.Some? {
        ResolveStopsAtFailure(st0, root, refs, i + 1, o);
        return Err(failure.value);
      }
      warnings := w;
      i := i + 1;
    }
    assert refs[..|refs|] == refs;
    r := Ok(warnings);
  }

  // =====================================================================
  // resolveRefs: properties

  /** A value reached by walking a closed heap from one of its values is in the heap. */
  lemma {:induction false} GetValueAtPathInHeap(h: Heap, v: Val, path: seq<string>)
    requires Closed(h) && InHeap(h, v)
    ensures InHeap(h, GetValueAtPath(h, v, path))
    decreases |path|
  {
    if |path| > 0 && Truthy(v) {
      if v.Obj? {
        LookupInHeap(h, v.id, path[0]);
      }
      GetValueAtPathInHeap(h, Get(h, v, path[0]), path[1..]);
    }
  }

  /** Writing an object literal whose values are in the heap keeps the document valid. */
  lemma AllocateValid(st: Store, parent: NodeId, key: string, es: Entries)
    requires ValidStore(st) && parent in st.nodes
    requires AllInHeap(st.nodes, es) && DistinctKeys(es)
    ensures ValidStore(Allocate(st, parent, key, es))
    ensures st.nodes.Keys <= Allocate(st, parent, key, es).nodes.Keys
  {
    NewNodeValid(st.nodes, st.next, es);
    var n1 := st.nodes[st.next := es];
    assert n1[parent] == st.nodes[parent];
    PutNodeValid(n1, st.next + 1, parent, key, Obj(st.next));
  }

  /** The values `getValueAtPath` reaches from the root, and the entries of objects among them, are in the heap. */
  lemma WalkInHeap(st: Store, root: NodeId, path: seq<string>)
    requires ValidStore(st) && root in st.nodes
    ensures InHeap(st.nodes, GetValueAtPath(st.nodes, Obj(root), path))
    ensures AllInHeap(st.nodes, EntriesOf(st.nodes, GetValueAtPath(st.nodes, Obj(root), path)))
  {
    GetValueAtPathInHeap(st.nodes, Obj(root), path);
    EntriesInHeap(st.nodes, GetValueAtPath(st.nodes, Obj(root), path));
  }

  /** A plain assignment of a value of the heap keeps the document valid. */
  lemma AssignValid(st: Store, parent: NodeId, key: string, v: Val)
    requires ValidStore(st) && parent in st.nodes && InHeap(st.nodes, v)
    ensures ValidStore(Store(st.nodes[parent := Put(st.nodes[parent], key, v)], st.next))
  {
    PutNodeValid(st.nodes, st.next, parent, key, v);
  }

  /** Every edge that writes keeps the document valid, and the root stays a node of it. */
  lemma ResolveEdgeValid(st: Store, root: NodeId, e: Ref, o: Options)
    requires ValidStore(st) && root in st.nodes
    ensures ResolveEdge(st, root, e, o).Written? ==>
      ValidStore(ResolveEdge(st, root, e, o).st) && root in ResolveEdge(st, root, e, o).st.nodes
  {
    if ResolveEdge(st, root, e, o).Written? {
      var h := st.nodes;
      var source := GetValueAtPath(h, Obj(root), SourcePath(e.1.s));
      var targetKey := TargetKey(e.0);
      var target := GetValueAtPath(h, Obj(root), TargetParentPath(e.0));
      var slot := Lookup(h[target.id], targetKey);
      WalkInHeap(st, root, SourcePath(e.1.s));
      LookupInHeap(h, target.id, targetKey);
      if MergeOn(o.merge) && TypeofObject(slot) && source.Obj? {
        MergeValid(st, target.id, targetKey, slot, source, o);
      } else if KeepOn(o.keepRefs) && TypeofObject(slot) && source.Obj? {
        KeepValid(st, target.id, targetKey, slot, source, o);
      } else {
        AssignValid(st, target.id, targetKey, source);
      }
    }
  }

  /** The merged object an edge allocates keeps the document valid. */
  lemma MergeValid(st: Store, parent: NodeId, key: string, slot: Val, source: Val, o: Options)
    requires ValidStore(st) && parent in st.nodes && InHeap(st.nodes, slot) && InHeap(st.nodes, source)
    ensures var lay := Layout(o.merge, EntriesOf(st.nodes, slot), EntriesOf(st.nodes, source));
      ValidStore(Allocate(st, parent, key, Assemble(lay, o.keepRefs)))
      && st.nodes.Keys <= Allocate(st, parent, key, Assemble(lay, o.keepRefs)).nodes.Keys
  {
    var h := st.nodes;
    EntriesInHeap(h, slot);
    EntriesInHeap(h, source);
    var lay := Layout(o.merge, EntriesOf(h, slot), EntriesOf(h, source));
    assert AllInHeap(h, lay);
    AssembleWellFormed(h, lay, o.keepRefs);
    AllocateValid(st, parent, key, Assemble(lay, o.keepRefs));
  }

  /** The marked copy an edge allocates under `keepRefs` keeps the document valid. */
  lemma KeepValid(st: Store, parent: NodeId, key: string, slot: Val, source: Val, o: Options)
    requires ValidStore(st) && parent in st.nodes && InHeap(st.nodes, slot) && InHeap(st.nodes, source)
    ensures var marked := Put(EntriesOf(st.nodes, source), MarkerKey(o.keepRefs), Get(st.nodes, slot, "$ref"));
      ValidStore(Allocate(st, parent, key, marked)) && st.nodes.Keys <= Allocate(st, parent, key, marked).nodes.Keys
  {
    var h := st.nodes;
    EntriesInHeap(h, source);
    if slot.Obj? {
      LookupInHeap(h, slot.id, "$ref");
    }
    var marked := Put(EntriesOf(h, source), MarkerKey(o.keepRefs), Get(h, slot, "$ref"));
    PutInHeap(h, EntriesOf(h, source), MarkerKey(o.keepRefs), Get(h, slot, "$ref"));
    AllocateValid(st, parent, key, marked);
  }

  /** The whole run keeps the document valid. */
  lemma {:induction false} ResolveValid(st: Store, root: NodeId, refs: seq<Ref>, o: Options)
    requires ValidStore(st) && root in st.nodes
    ensures ValidStore(Resolve(st, root, refs, o).st) && root in Resolve(st, root, refs, o).st.nodes
    decreases |refs|
  {
    if |refs| > 0 {
      var prev := Resolve(st, root, refs[..|refs| - 1], o);
      ResolveValid(st, root, refs[..|refs| - 1], o);
      ResolveEdgeValid(prev.st, root, refs[|refs| - 1], o);
    }
  }

  /** The slot an edge writes: the node reached by the parent path, and the last key. */
  ghost predicate EdgeSlot(st: Store, root: NodeId, e: Ref, source: Val, parent: NodeId, key: string) {
    && e.1.Str?
    && source == GetValueAtPath(st.nodes, Obj(root), SourcePath(e.1.s))
    && GetValueAtPath(st.nodes, Obj(root), TargetParentPath(e.0)) == Obj(parent)
    && parent in st.nodes
    && key == TargetKey(e.0)
  }

  /**
   * Without `merge` and `keepRefs`, a found source is assigned as it is:
   * the slot then holds the very object the source pointer names (the two
   * are aliases), no object is allocated, and no other property changes.
   */
  lemma ResolveAliases(st: Store, root: NodeId, e: Ref, o: Options, source: Val, parent: NodeId, key: string)
    requires EdgeSlot(st, root, e, source, parent, key) && Truthy(source)
    requires !MergeOn(o.merge) && !KeepOn(o.keepRefs)
    ensures ResolveEdge(st, root, e, o).Written?
    ensures var st' := ResolveEdge(st, root, e, o).st;
      && st'.next == st.next
      && st'.nodes.Keys == st.nodes.Keys
      && Get(st'.nodes, Obj(parent), key) == source
      && (forall k :: k != key ==> Get(st'.nodes, Obj(parent), k) == Get(st.nodes, Obj(parent), k))
      && (forall id :: id in st.nodes && id != parent ==> st'.nodes[id] == st.nodes[id])
  {
  }

  /**
   * With `merge` on and both the slot and the source objects, the slot
   * receives a new object, distinct from the source, whose entries are the
   * fold of the layout; nothing else changes but the slot.
   */
  lemma ResolveMerges(st: Store, root: NodeId, e: Ref, o: Options, source: Val, parent: NodeId, key: string)
    requires ValidStore(st) && root in st.nodes
    requires EdgeSlot(st, root, e, source, parent, key) && source.Obj?
    requires MergeOn(o.merge) && Get(st.nodes, Obj(parent), key).Obj?
    ensures ResolveEdge(st, root, e, o).Written?
    ensures var st' := ResolveEdge(st, root, e, o).st;
      var slot := Get(st.nodes, Obj(parent), key);
      && st'.next == st.next + 1 && st.next in st'.nodes
      && Get(st'.nodes, Obj(parent), key) == Obj(st.next) != source
      && st'.nodes[st.next] ==
         Assemble(Layout(o.merge, EntriesOf(st.nodes, slot), EntriesOf(st.nodes, source)), o.keepRefs)
      && (forall k :: k != key ==> Get(st'.nodes, Obj(parent), k) == Get(st.nodes, Obj(parent), k))
      && (forall id :: id in st.nodes && id != parent ==> id in st'.nodes && st'.nodes[id] == st.nodes[id])
  {
    WalkInHeap(st, root, SourcePath(e.1.s));
    assert source.id < st.next;
    var slot := Get(st.nodes, Obj(parent), key);
    var merged := Assemble(Layout(o.merge, EntriesOf(st.nodes, slot), EntriesOf(st.nodes, source)), o.keepRefs);
    assert ResolveEdge(st, root, e, o) == Written(Allocate(st, parent, key, merged));
    AllocateFacts(st, parent, key, merged);
  }

  /** What `Allocate` changes: the new node, the slot, and nothing else. */
  lemma AllocateFacts(st: Store, parent: NodeId, key: string, es: Entries)
    requires ValidStore(st) && parent in st.nodes
    ensures var st' := Allocate(st, parent, key, es);
      && st'.next == st.next + 1 && st.next in st'.nodes && st'.nodes[st.next] == es
      && Get(st'.nodes, Obj(parent), key) == Obj(st.next)
      && (forall k :: k != key ==> Get(st'.nodes, Obj(parent), k) == Get(st.nodes, Obj(parent), k))
      && (forall id :: id in st.nodes && id != parent ==> id in st'.nodes && st'.nodes[id] == st.nodes[id])
  {
    assert parent != st.next;
  }

  /**
   * With `keepRefs` truthy and no `merge`, the slot receives a copy of the
   * source with the slot's own pointer stored under the marker key.
   */
  lemma ResolveKeepsRef(st: Store, root: NodeId, e: Ref, o: Options, source: Val, parent: NodeId, key: string)
    requires ValidStore(st) && root in st.nodes
    requires EdgeSlot(st, root, e, source, parent, key) && source.Obj?
    requires !MergeOn(o.merge) && KeepOn(o.keepRefs) && Get(st.nodes, Obj(parent), key).Obj?
    ensures ResolveEdge(st, root, e, o).Written?
    ensures var st' := ResolveEdge(st, root, e, o).st;
      var slot := Get(st.nodes, Obj(parent), key);
      var copy := st'.nodes[st.next];
      && st'.next == st.next + 1 && st.next in st'.nodes
      && Get(st'.nodes, Obj(parent), key) == Obj(st.next) != source
      && Lookup(copy, MarkerKey(o.keepRefs)) == Get(st.nodes, slot, "$ref")
      && (forall k :: k != MarkerKey(o.keepRefs) ==> Lookup(copy, k) == Get(st.nodes, source, k))
  {
    WalkInHeap(st, root, SourcePath(e.1.s));
    assert source.id < st.next;
    var slot := Get(st.nodes, Obj(parent), key);
    var marked := Put(EntriesOf(st.nodes, source), MarkerKey(o.keepRefs), Get(st.nodes, slot, "$ref"));
    assert ResolveEdge(st, root, e, o) == Written(Allocate(st, parent, key, marked));
    AllocateFacts(st, parent, key, marked);
  }

  /**
   * An edge whose source pointer leads nowhere: `'warn'` (and the default)
   * records a warning, `'throw'` stops the loop, and `'skip'` or an
   * options object without `unresolvable` goes on silently. The document
   * is untouched in every case.
   */
  lemma ResolveUnresolvable(st: Store, root: NodeId, refs: seq<Ref>, e: Ref, o: Options)
    requires Resolve(st, root, refs, o).failure.None?
    requires e.1.Str? && !Truthy(GetValueAtPath(Resolve(st, root, refs, o).st.nodes, Obj(root), SourcePath(e.1.s)))
    ensures var prev := Resolve(st, root, refs, o);
      var next := Resolve(st, root, refs + [e], o);
      && next.st == prev.st
      && (o.unresolvable == Warn ==> next.warnings == prev.warnings + [e] && next.failure.None?)
      && (o.unresolvable == Throw ==> next.warnings == prev.warnings && next.failure == Some(Unresolved(e.0, e.1.s)))
      && (o.unresolvable in {Skip, Unset} ==> next == prev)
  {
    assert (refs + [e])[..|refs|] == refs;
  }

  /** Under `'skip'` (or with `unresolvable` absent) no warning is printed and nothing unresolvable is thrown. */
  lemma {:induction false} ResolveQuiet(st: Store, root: NodeId, refs: seq<Ref>, o: Options)
    requires o.unresolvable == Skip || o.unresolvable == Unset
    ensures Resolve(st, root, refs, o).warnings == []
    ensures Resolve(st, root, refs, o).failure.Some? ==> Resolve(st, root, refs, o).failure.value.TypeError?
    decreases |refs|
  {
    if |refs| > 0 {
      ResolveQuiet(st, root, refs[..|refs| - 1], o);
    }
  }

  // =====================================================================
  // hydrateRefs

  /** `options?.refFilter`, or the default: keep the edges whose source is a string. */
  function RefFilterOf(opts: Option<Options>): Ref -> bool {
    if opts.Some? && opts.value.refFilter.Some? then opts.value.refFilter.value
    else (r: Ref) => r.1.Str?
  }

  /** `refs.filter(f)`. */
  function FilterRefs(refs: seq<Ref>, f: Ref -> bool): (r: seq<Ref>)
    decreases |refs|
  {
    if |refs| == 0 then []
    else (if f(refs[0]) then [refs[0]] else []) + FilterRefs(refs[1..], f)
  }

  /** The filtered edges are exactly those the predicate accepts, and no more of them. */
  lemma {:induction false} FilterRefsSpec(refs: seq<Ref>, f: Ref -> bool)
    ensures |FilterRefs(refs, f)| <= |refs|
    ensures forall e :: e in FilterRefs(refs, f) <==> e in refs && f(e)
    decreases |refs|
  {
    if |refs| > 0 {
      FilterRefsSpec(refs[1..], f);
      assert refs == [refs[0]] + refs[1..];
    }
  }

  /**
   * `hydrateRefs(root, options)`: find the edges of the document from its
   * root, filter them, and resolve them in place. A falsy root, or one
   * that is not an object, is answered as it is.
   */
  method HydrateRefs(doc: Document, root: Val, opts: Option<Options>) returns (r: Result<seq<Ref>, ResolveError>)
    requires doc.Valid() && Ranked(doc.nodes) && InHeap(doc.nodes, root)
    modifies doc
    ensures doc.Valid()
    ensures !root.Obj? ==> doc.nodes == old(doc.nodes) && doc.next == old(doc.next) && r == Ok([])
    ensures root.Obj? ==>
      var refs := FilterRefs(FindNode(old(doc.nodes), root.id, [], "#"), RefFilterOf(opts));
      var run := Resolve(old(Store(doc.nodes, doc.next)), root.id, refs, EffectiveOptions(opts));
      && Store(doc.nodes, doc.next) == run.st
      && r == if run.failure.Some? then Err(run.failure.value) else Ok(run.warnings)
  {
    if !root.Obj? {
      return Ok([]);
    }
    var found := FindRefs(doc, root.id, [], "#");
    var refs := FilterRefs(found, RefFilterOf(opts));
    r := ResolveRefs(doc, root.id, refs, opts);
  }
}
