/**
 * The virtual tree index of the DEX-to-Smali filesystem, as values: the nodes
 * of the tree, the node-to-backing-file map, and the effect of storing one
 * node (with all its ancestors) and of storing a whole flat listing.
 * The class in DexToSmali.dfy performs these updates in place and is
 * specified by the functions here.
 */
module VirtualTree {
  import opened Wrappers

  /** A file on the host produced by the converter (a `java.io.File`). */
  datatype HostFile = HostFile(path: string, name: string, isDirectory: bool, length: nat)

  /**
   * A virtual node: the filesystem's root, or an entry with a name under a
   * parent node.  Identity is the path: two entries with the same name
   * along the same parent chain are the same key, whatever their kind or
   * length.
   */
  datatype Node = Root | Entry(name: string, parent: Node)

  /**
   * The backing-file map: `None` is the `null` value of a synthesised
   * directory; a backing host file also gives the node's kind and length.
   */
  type FileMap = map<Node, Option<HostFile>>

  /** `getParentFile()`: the root has none. */
  function ParentFile(n: Node): Option<Node>
  {
    match n
    case Root => None
    case Entry(_, p) => Some(p)
  }

  /** Number of steps from `n` up to the root. */
  function Depth(n: Node): nat
  {
    match n
    case Root => 0
    case Entry(_, p) => 1 + Depth(p)
  }

  /** `n` and all of its ancestors, the root excluded. */
  function Lineage(n: Node): set<Node>
  {
    match n
    case Root => {}
    case Entry(_, p) => {n} + Lineage(p)
  }

  /** The invariant of the index: every key is a non-root node whose non-root parent is a key too. */
  predicate Closed(m: FileMap)
  {
    forall k :: k in m ==> k.Entry? && (k.parent.Entry? ==> k.parent in m)
  }

  /**
   * `storeFile(file, entry)`: ignore `null` and the root; otherwise put
   * `entry` unless the node already has a non-null backing file, then store
   * the parent with a `null` backing file.
   */
  function Store(m: FileMap, file: Option<Node>, entry: Option<HostFile>): FileMap
    decreases if file.Some? then Depth(file.value) else 0
  {
    match file
    case None => m
    case Some(Root) => m
    case Some(Entry(_, p)) =>
      var n := file.value;
      var m' := if n !in m || m[n].None? then m[n := entry] else m;
      Store(m', Some(p), None)
  }

  /** What the first-writer-wins rule leaves for `n` when `e` is offered. */
  function FirstWriter(m: FileMap, n: Node, e: Option<HostFile>): Option<HostFile>
  {
    if n in m && m[n].Some? then m[n] else e
  }

  /**
   * The map `Store(m, Some(n), e)` should produce, written without
   * recursion: the keys grow by n's lineage, `n` gets the first writer's
   * file, the ancestors keep their old value or become `null`, and nothing
   * else changes.
   */
  function StoreReference(m: FileMap, n: Node, e: Option<HostFile>): FileMap
  {
    map k | k in m.Keys + Lineage(n) ::
      if n.Entry? && k == n then FirstWriter(m, n, e)
      else if k in m then m[k] else None
  }

  /** Every node of a lineage lies strictly below the root and no deeper than its start. */
  lemma {:induction false} LineageDepth(n: Node, a: Node)
    requires a in Lineage(n)
    ensures 1 <= Depth(a) <= Depth(n)
  {
    match n
    case Root =>
    case Entry(_, p) =>
      if a != n {
        LineageDepth(p, a);
      }
  }

  /** A lineage contains the non-root parent of each of its members. */
  lemma {:induction false} LineageClosed(n: Node, a: Node)
    requires a in Lineage(n)
    ensures a.Entry? && (a.parent.Entry? ==> a.parent in Lineage(n))
  {
    match n
    case Root =>
    case Entry(_, p) =>
      if a != n {
        LineageClosed(p, a);
      }
  }

  /** The recursive `Store` agrees with the reference map. */
  lemma {:induction false} StoreMatchesReference(m: FileMap, n: Node, e: Option<HostFile>)
    ensures Store(m, Some(n), e) == StoreReference(m, n, e)
    decreases Depth(n)
  {
    match n
    case Root =>
      assert StoreReference(m, n, e) == m;
    case Entry(_, p) =>
      var m' := if n !in m || m[n].None? then m[n := e] else m;
      assert Store(m, Some(n), e) == Store(m', Some(p), None);
      StoreMatchesReference(m', p, None);
      if n in Lineage(p) {
        LineageDepth(p, n);
        assert false;
      }
      var lhs := StoreReference(m', p, None);
      var rhs := StoreReference(m, n, e);
      assert lhs.Keys == rhs.Keys;
      forall k | k in lhs.Keys
        ensures lhs[k] == rhs[k]
      {
        if k == n {
          assert !p.Entry? || k != p;
        }
      }
  }

  /** `storeFile` only adds keys: exactly the non-root lineage of the stored node. */
  lemma StoreAddsLineage(m: FileMap, n: Node, e: Option<HostFile>)
    ensures Store(m, Some(n), e).Keys == m.Keys + Lineage(n)
  {
    StoreMatchesReference(m, n, e);
  }

  /**
   * First writer wins: a non-null backing file is never replaced, and the
   * stored node gets `e` when it was absent or mapped to `null`.
   */
  lemma StoreFirstWriterWins(m: FileMap, n: Node, e: Option<HostFile>)
    ensures forall k :: k in m && m[k].Some? ==> k in Store(m, Some(n), e) && Store(m, Some(n), e)[k] == m[k]
    ensures n.Entry? && (n !in m || m[n].None?) ==> n in Store(m, Some(n), e) && Store(m, Some(n), e)[n] == e
  {
    StoreMatchesReference(m, n, e);
  }

  /** The ancestors of the stored node keep their value, or become `null` when new. */
  lemma StoreAncestorsNull(m: FileMap, n: Node, e: Option<HostFile>)
    ensures forall a :: a in Lineage(n) && a != n ==>
      a in Store(m, Some(n), e) && Store(m, Some(n), e)[a] == if a in m then m[a] else None
  {
    StoreMatchesReference(m, n, e);
  }

  /** Keys outside the stored node's lineage keep their value. */
  lemma StoreLeavesOthers(m: FileMap, n: Node, e: Option<HostFile>)
    ensures forall k :: k in m && k !in Lineage(n) ==> k in Store(m, Some(n), e) && Store(m, Some(n), e)[k] == m[k]
  {
    StoreMatchesReference(m, n, e);
  }

  /** Storing keeps the index closed under parents, and hence the root out of it. */
  lemma StorePreservesClosed(m: FileMap, n: Node, e: Option<HostFile>)
    requires Closed(m)
    ensures Closed(Store(m, Some(n), e))
    ensures Root !in Store(m, Some(n), e)
  {
    StoreMatchesReference(m, n, e);
    var m' := Store(m, Some(n), e);
    forall k | k in m'
      ensures k.Entry? && (k.parent.Entry? ==> k.parent in m')
    {
      if k in Lineage(n) {
        LineageClosed(n, k);
      }
    }
  }

  /** The node the indexing loop builds for a produced file under `currentRoot`. */
  function NodeFor(f: HostFile, currentRoot: Node): Node
  {
    Entry(f.name, currentRoot)
  }

  /** The nodes built for a sequence of produced files. */
  function NodesFor(fs: seq<HostFile>, currentRoot: Node): set<Node>
  {
    set i | 0 <= i < |fs| :: NodeFor(fs[i], currentRoot)
  }

  /** The index after `storeFile(node, f)` for each produced file `f`, in order. */
  function StoreAll(m: FileMap, fs: seq<HostFile>, currentRoot: Node): FileMap
    decreases |fs|
  {
    if fs == [] then m
    else
      var f := fs[|fs| - 1];
      Store(StoreAll(m, fs[..|fs| - 1], currentRoot), Some(NodeFor(f, currentRoot)), Some(f))
  }

  /** The keys of the index after indexing: the old keys, one node per file, and `currentRoot`'s lineage. */
  lemma {:induction false} StoreAllKeys(m: FileMap, fs: seq<HostFile>, currentRoot: Node)
    ensures StoreAll(m, fs, currentRoot).Keys ==
      m.Keys + NodesFor(fs, currentRoot) + (if fs == [] then {} else Lineage(currentRoot))
    decreases |fs|
  {
    if fs != [] {
      var init := fs[..|fs| - 1];
      var f := fs[|fs| - 1];
      StoreAllKeys(m, init, currentRoot);
      StoreAddsLineage(StoreAll(m, init, currentRoot), NodeFor(f, currentRoot), Some(f));
      assert NodesFor(fs, currentRoot) == NodesFor(init, currentRoot) + {NodeFor(f, currentRoot)} by {
        forall x | x in NodesFor(fs, currentRoot)
          ensures x in NodesFor(init, currentRoot) + {NodeFor(f, currentRoot)}
        {
          var i :| 0 <= i < |fs| && x == NodeFor(fs[i], currentRoot);
          if i < |init| {
            assert init[i] == fs[i];
          }
        }
        forall x | x in NodesFor(init, currentRoot)
          ensures x in NodesFor(fs, currentRoot)
        {
          var i :| 0 <= i < |init| && x == NodeFor(init[i], currentRoot);
          assert fs[i] == init[i];
        }
        assert fs[|fs| - 1] == f;
      }
    }
  }

  /** Indexing never replaces a non-null backing file already in the map. */
  lemma {:induction false} StoreAllKeepsBacked(m: FileMap, fs: seq<HostFile>, currentRoot: Node, k: Node)
    requires k in m && m[k].Some?
    ensures k in StoreAll(m, fs, currentRoot) && StoreAll(m, fs, currentRoot)[k] == m[k]
    decreases |fs|
  {
    if fs != [] {
      var init := fs[..|fs| - 1];
      var f := fs[|fs| - 1];
      StoreAllKeepsBacked(m, init, currentRoot, k);
      StoreAllKeys(m, init, currentRoot);
      StoreFirstWriterWins(StoreAll(m, init, currentRoot), NodeFor(f, currentRoot), Some(f));
    }
  }

  /** A node deeper than `currentRoot` and built for none of the files is left as it was. */
  lemma {:induction false} StoreAllUntouched(m: FileMap, fs: seq<HostFile>, currentRoot: Node, k: Node)
    requires k !in NodesFor(fs, currentRoot) && Depth(k) > Depth(currentRoot)
    ensures k in StoreAll(m, fs, currentRoot) <==> k in m
    ensures k in m ==> k in StoreAll(m, fs, currentRoot) && StoreAll(m, fs, currentRoot)[k] == m[k]
    decreases |fs|
  {
    if k in Lineage(currentRoot) {
      LineageDepth(currentRoot, k);
    }
    StoreAllKeys(m, fs, currentRoot);
    if fs != [] {
      var init := fs[..|fs| - 1];
      var f := fs[|fs| - 1];
      assert k != NodeFor(f, currentRoot);
      assert k !in NodesFor(init, currentRoot);
      StoreAllUntouched(m, init, currentRoot, k);
      StoreLeavesOthers(StoreAll(m, init, currentRoot), NodeFor(f, currentRoot), Some(f));
    }
  }

  /**
   * First writer wins across the walk: the node of the first file `fs[j]`
   * that builds it is backed by `fs[j]` when it had no backing file before;
   * later files with the same name under the same parent are dropped.
   */
  lemma {:induction false} StoreAllFirstWins(m: FileMap, fs: seq<HostFile>, currentRoot: Node, j: nat)
    requires j < |fs|
    requires forall i :: 0 <= i < j ==> NodeFor(fs[i], currentRoot) != NodeFor(fs[j], currentRoot)
    requires NodeFor(fs[j], currentRoot) !in m || m[NodeFor(fs[j], currentRoot)].None?
    ensures NodeFor(fs[j], currentRoot) in StoreAll(m, fs, currentRoot)
    ensures StoreAll(m, fs, currentRoot)[NodeFor(fs[j], currentRoot)] == Some(fs[j])
    decreases |fs|
  {
    var n := NodeFor(fs[j], currentRoot);
    var init := fs[..|fs| - 1];
    var f := fs[|fs| - 1];
    var before := StoreAll(m, init, currentRoot);
    if j == |fs| - 1 {
      assert n !in NodesFor(init, currentRoot);
      StoreAllUntouched(m, init, currentRoot, n);
      StoreFirstWriterWins(before, n, Some(f));
    } else {
      assert init[j] == fs[j];
      StoreAllFirstWins(m, init, currentRoot, j);
      StoreAllKeys(m, init, currentRoot);
      StoreFirstWriterWins(before, NodeFor(f, currentRoot), Some(f));
    }
  }

  /**
   * Files from different directories of the converter's output that share a
   * base name collide: the walk keeps only base names, so the second file
   * is dropped and the first one backs the single node.
   */
  lemma SameNameCollides(f1: HostFile, f2: HostFile)
    requires f1.name == f2.name
    ensures StoreAll(map[], [f1, f2], Root) == map[NodeFor(f1, Root) := Some(f1)]
  {
    var n := NodeFor(f1, Root);
    assert [f1, f2][..1] == [f1];
    assert [f1][..0] == [];
    var m1 := Store(map[], Some(n), Some(f1));
    assert m1 == Store(map[n := Some(f1)], Some(Root), None);
    assert StoreAll(map[], [f1], Root) == m1 == map[n := Some(f1)];
    assert Store(m1, Some(n), Some(f2)) == Store(m1, Some(Root), None) == m1;
  }

  /** Indexing keeps the index closed under parents. */
  lemma {:induction false} StoreAllPreservesClosed(m: FileMap, fs: seq<HostFile>, currentRoot: Node)
    requires Closed(m)
    ensures Closed(StoreAll(m, fs, currentRoot))
    decreases |fs|
  {
    if fs != [] {
      var init := fs[..|fs| - 1];
      StoreAllPreservesClosed(m, init, currentRoot);
      StorePreservesClosed(StoreAll(m, init, currentRoot), NodeFor(fs[|fs| - 1], currentRoot), Some(fs[|fs| - 1]));
    }
  }

  /** The children of `d` in the index: the keys whose parent is `d`. */
  function Children(m: FileMap, d: Node): set<Node>
  {
    set k | k in m && k.Entry? && k.parent == d
  }

  /**
   * Listing after indexing: the children of `currentRoot` are its old
   * children plus exactly one node per produced file; the synthesised
   * ancestors never appear among them.
   */
  lemma ListingAfterIndexing(m: FileMap, fs: seq<HostFile>, currentRoot: Node)
    ensures Children(StoreAll(m, fs, currentRoot), currentRoot) ==
      Children(m, currentRoot) + NodesFor(fs, currentRoot)
  {
    var m' := StoreAll(m, fs, currentRoot);
    StoreAllKeys(m, fs, currentRoot);
    forall k | k in Lineage(currentRoot) && k !in m
      ensures !(k.Entry? && k.parent == currentRoot)
    {
      LineageDepth(currentRoot, k);
    }
  }

  /** Indexing a fresh filesystem: the root lists exactly one node per produced file. */
  lemma RootListingAfterOpen(fs: seq<HostFile>)
    ensures Children(StoreAll(map[], fs, Root), Root) == NodesFor(fs, Root)
  {
    ListingAfterIndexing(map[], fs, Root);
    assert Children(map[], Root) == {};
  }

  /** The number of files the walk processes: the position of the first cancelled poll. */
  function FirstCancelled(cancelled: seq<bool>): (k: nat)
    ensures k <= |cancelled|
    ensures forall i :: 0 <= i < k ==> !cancelled[i]
    ensures k < |cancelled| ==> cancelled[k]
  {
    if cancelled == [] || cancelled[0] then 0 else 1 + FirstCancelled(cancelled[1..])
  }
}
