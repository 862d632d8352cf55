/**
 * The DEX-to-Smali filesystem: a flat listing of converter output files
 * indexed in place into a virtual tree.  The `map` field of the Java
 * class is `fileMap` here; every update is specified by the functions of
 * module VirtualTree.
 */
module DexToSmali {
  import opened Wrappers
  import opened VirtualTree

  /** The exceptions this filesystem raises. */
  datatype FsError =
    | DisassemblyFailed(providerName: string)  // "Failed to disassemble DEX file: <name>"
    | NoBackingFile(file: Node)                // no file behind the node: the byte provider cannot be built

  class DexToSmaliFileSystem {
    /** The `GFileSystemBase` name passed to `super`. */
    const fileSystemName: string
    const providerName: string
    var fileMap: FileMap

    /** The index invariant: every key is a non-root node whose non-root parent is a key. */
    predicate Valid()
      reads this
    {
      Closed(fileMap)
    }

    constructor (fileSystemName: string, providerName: string)
      ensures this.fileSystemName == fileSystemName && this.providerName == providerName
      ensures fileMap == map[] && Valid()
    {
      this.fileSystemName := fileSystemName;
      this.providerName := providerName;
      fileMap := map[];
    }

    /** The backing file of `file`; a node mapped to `null`, or not a key, has none. */
    method GetByteProvider(file: Node) returns (r: Result<HostFile, FsError>)
      ensures r.Ok? <==> file in fileMap && fileMap[file].Some?
      ensures r.Ok? ==> r.value == fileMap[file].value
      ensures r.Err? ==> r.error == NoBackingFile(file)
      ensures Valid() && file == Root ==> r.Err?
    {
      var entry := if file in fileMap then fileMap[file] else None;
      match entry
      case None =>
        r := Err(NoBackingFile(file));
      case Some(f) =>
        r := Ok(f);
    }

    /**
     * The children of `directory` (of the root when it is `null` or the
     * root), found by scanning every key once.  The result lists each
     * child once, in the map's iteration order.
     */
    method GetListing(directory: Option<Node>) returns (r: seq<Node>)
      ensures forall k :: k in r <==> k in Children(fileMap, directory.GetOr(Root))
      ensures forall i, j :: 0 <= i < j < |r| ==> r[i] != r[j]
      ensures Valid() && directory.Some? && directory.value.Entry? && directory.value !in fileMap ==> r == []
    {
      var target := if directory.None? || directory.value == Root then Root else directory.value;
      r := [];
      var rest := fileMap.Keys;
      while rest != {}
        invariant rest <= fileMap.Keys
        invariant forall k :: k in r <==> k in Children(fileMap, target) && k !in rest
        invariant forall i, j :: 0 <= i < j < |r| ==> r[i] != r[j]
        decreases rest
      {
        var file :| file in rest;
        // a key without a parent is skipped; one whose parent is the target is listed
        if ParentFile(file) == Some(target) {
          r := r + [file];
        }
        rest := rest - {file};
      }
      if Valid() && directory.Some? && directory.value.Entry? && directory.value !in fileMap {
        assert Children(fileMap, target) == {};
        if r != [] {
          assert r[0] in r;
        }
      }
    }

    /**
     * Converts the input and indexes the converter's output.  The
     * converter is not modelled: `disassembled` is its success flag,
     * `produced` the files it wrote, in walk order, and `cancelled` the
     * monitor's answer at each step of the walk.
     */
    method Open(disassembled: bool, produced: seq<HostFile>, cancelled: seq<bool>)
      returns (r: Result<(), FsError>)
      requires |cancelled| == |produced|
      modifies this
      ensures !disassembled ==> r == Err(DisassemblyFailed(providerName)) && fileMap == old(fileMap)
      ensures disassembled ==> r == Ok(())
      ensures disassembled ==>
        fileMap == StoreAll(old(fileMap), produced[..FirstCancelled(cancelled)], Root)
      ensures old(Valid()) ==> Valid()
    {
      if !disassembled {
        return Err(DisassemblyFailed(providerName));
      }
      GetFileListing(produced, Root, cancelled);
      r := Ok(());
    }

    /**
     * The walk over the converter's output: each file before the first
     * cancelled poll is stored under `currentRoot`; the walk stops at that
     * poll and keeps what it has stored.
     */
    method GetFileListing(produced: seq<HostFile>, currentRoot: Node, cancelled: seq<bool>)
      requires |cancelled| == |produced|
      modifies this
      ensures fileMap == StoreAll(old(fileMap), produced[..FirstCancelled(cancelled)], currentRoot)
      ensures old(Valid()) ==> Valid()
    {
      ghost var m0 := fileMap;
      var i := 0;
      while i < |produced|
        invariant i <= FirstCancelled(cancelled)
        invariant fileMap == StoreAll(m0, produced[..i], currentRoot)
        invariant Closed(m0) ==> Closed(fileMap)
      {
        var f := produced[i];
        if cancelled[i] {
          break;
        }
        var gfile := NodeFor(f, currentRoot);
        StoreFile(Some(gfile), Some(f));
        assert produced[..i + 1][..i] == produced[..i];
        i := i + 1;
      }
    }

    /**
     * `storeFile`: a `null` node or the root is ignored; otherwise the node
     * gets `entry` unless it already has a non-null backing file, and its
     * parent is stored with a `null` backing file, up to the root.
     * This is the in-place form of `Store`, whose effect the lemmas of
     * module VirtualTree describe.
     */
    method StoreFile(file: Option<Node>, entry: Option<HostFile>)
      modifies this
      ensures fileMap == Store(old(fileMap), file, entry)
      ensures file.None? || file == Some(Root) ==> fileMap == old(fileMap)
      ensures file.Some? ==> fileMap.Keys == old(fileMap).Keys + Lineage(file.value)
      ensures forall k :: k in old(fileMap) && old(fileMap)[k].Some? ==>
        k in fileMap && fileMap[k] == old(fileMap)[k]
      ensures old(Valid()) ==> Valid()
      decreases if file.Some? then Depth(file.value) else 0
    {
      if file.None? {
        return;
      }
      var f := file.value;
      if f == Root {
        return;
      }
      ghost var m0 := fileMap;
      if f !in fileMap || fileMap[f].None? {
        fileMap := fileMap[f := entry];
      }
      StoreFile(ParentFile(f), None);
      StoreAddsLineage(m0, f, entry);
      StoreFirstWriterWins(m0, f, entry);
      if Closed(m0) {
        StorePreservesClosed(m0, f, entry);
      }
    }

    /** Closing clears the index. */
    method Close()
      modifies this
      ensures fileMap == map[] && Valid()
    {
      fileMap := map[];
    }
  }
}
