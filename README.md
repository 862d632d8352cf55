# Virtual tree index and temporary-file copies of Ghidra's DEX-to-Smali filesystem

This project models two pieces of Ghidra's file-format support in Dafny and proves properties about them.

1. **The virtual tree index of `DexToSmaliFileSystem`** (modules `VirtualTree` and `DexToSmali`).
   The DEX file is turned into Smali files by an external disassembler, which writes a directory tree of host files. The walk visits every file of that tree and keeps only its base name. The filesystem indexes the files into a map from virtual nodes (`GFile`) to backing host files. A synthesised directory maps to `null`.
   - `storeFile` adds a node under a first-writer-wins rule, then stores each non-root ancestor with a `null` backing file.
   - `getListing` filters every key by its parent.
   - The indexing walk stops at the first entry for which the monitor reports cancellation.
   - `close` clears the map.

   A node is a value, `Node = Root | Entry(name, parent)`, so its identity is its path. A node's kind and length come from its backing host file; a synthesised directory has none. Files from different packages that share a base name become the same node, and the second one is dropped (`SameNameCollides`). The Java class becomes the class `DexToSmali.DexToSmaliFileSystem`. Its field `fileMap` is the Java field `map`, since `map` is a Dafny keyword. Each state-changing method's new state is stated through the functions `VirtualTree.Store` and `VirtualTree.StoreAll`. Separate lemmas then prove what those functions do:
   - they only add keys;
   - they keep non-null entries;
   - new ancestors map to `null`;
   - the index stays closed under parents;
   - listings are exact.

2. **The temporary-file helpers of `GFileUtilityMethods`** (module `GFileUtility`).
   - `writeTemporaryFile(InputStream, int)` copies 8192-byte reads into a new file. It stops at end of stream, or as soon as the running total reaches the cap. Since the cap is checked only after a whole chunk is written, with a positive cap the copy can pass the cap by less than one chunk. With a cap of zero or less, the first chunk is written whole (nothing at end of stream), whatever the cap. The model keeps both behaviours.
   - `writeTemporaryFile(InputStream)` uses `Integer.MAX_VALUE` as the cap.
   - `writeTemporaryFile(byte[], String)` defaults a `null` prefix to `"ghidra_file_system_"` and pads a shorter prefix with `'_'` to three characters. It then writes the whole array. A Java string is a sequence of UTF-16 code units, as `String.length()` counts them, so a character outside the Basic Multilingual Plane counts as two.

   The input stream is the list of chunks its successive `read` calls return. Once they are used up, `read` returns -1. A `TempFile` object is the new file together with its output stream: it holds the bytes written and a `closed` flag, which is set as the `finally` block does.

Four behaviours of the code differ from what a reader might expect. The model follows the code in each:
- A capped copy does not stop exactly at the cap. With a positive cap it can write up to one chunk more; `CopyMayExceedCap` shows an instance. With a cap of zero or less it writes the first chunk whole, or nothing at end of stream (`CopyNonPositiveCap`).
- A listing after `close` does not fail. `close` only clears the map, so a later listing is empty, and this class has no open/closed state machine.
- Content retrieval for a node without a backing file has no check of its own. The code passes `null` to `FileByteProvider`, which then fails. The model returns `NoBackingFile`.
- The index does not synthesise intermediate directories such as `a/b` for `a/b/c.txt` during `open`. The code builds each node from the host file's base name directly under the root it is given, so with `root` the ascent in `storeFile` stops at once. The model keeps `currentRoot` as a parameter, so the ancestor lemmas speak about any root node.

## Model

| member | source | states |
|---|---|---|
| `DexToSmali.DexToSmaliFileSystem.constructor` | Ghidra/Features/FileFormats/src/main/java/ghidra/file/formats/android/dex/DexToSmaliFileSystem.java:46-50 | a new filesystem has an empty index, which satisfies the index invariant |
| `DexToSmali.DexToSmaliFileSystem.GetByteProvider` | Ghidra/Features/FileFormats/src/main/java/ghidra/file/formats/android/dex/DexToSmaliFileSystem.java:52-57 | succeeds exactly when the node is a key with a non-null backing file, and returns that file; otherwise it is the `NoBackingFile` error for that node; under the index invariant the root is always an error |
| `DexToSmali.DexToSmaliFileSystem.GetListing` | Ghidra/Features/FileFormats/src/main/java/ghidra/file/formats/android/dex/DexToSmaliFileSystem.java:59-81 | for `null` or the root, returns exactly the keys whose parent is the root; for another directory, exactly the keys whose parent equals it; each key appears once; under the index invariant a non-root directory that is not a key lists nothing |
| `DexToSmali.DexToSmaliFileSystem.Open` | Ghidra/Features/FileFormats/src/main/java/ghidra/file/formats/android/dex/DexToSmaliFileSystem.java:89-118 | a failed disassembly is the error naming the provider and leaves the index unchanged; otherwise the index becomes the old index with the files walked before the first cancellation stored under the root; the invariant is kept |
| `DexToSmali.DexToSmaliFileSystem.GetFileListing` | Ghidra/Features/FileFormats/src/main/java/ghidra/file/formats/android/dex/DexToSmaliFileSystem.java:120-138 | stores, in walk order, exactly the files before the first cancelled poll, each as a node under `currentRoot`; stops there without rollback; keeps the invariant |
| `DexToSmali.DexToSmaliFileSystem.StoreFile` | Ghidra/Features/FileFormats/src/main/java/ghidra/file/formats/android/dex/DexToSmaliFileSystem.java:140-152 | `null` and the root leave the index unchanged; otherwise the keys become the old keys plus the node's non-root lineage; no non-null entry changes; the invariant is kept |
| `DexToSmali.DexToSmaliFileSystem.Close` | Ghidra/Features/FileFormats/src/main/java/ghidra/file/formats/android/dex/DexToSmaliFileSystem.java:154-158 | the index is empty afterwards |
| `VirtualTree.StoreMatchesReference` | Ghidra/Features/FileFormats/src/main/java/ghidra/file/formats/android/dex/DexToSmaliFileSystem.java:140-152 | the recursive store equals a non-recursive reference map: keys grow by the lineage, the node gets the first writer's file, ancestors keep their value or become `null`, nothing else changes |
| `VirtualTree.StoreAddsLineage` | Ghidra/Features/FileFormats/src/main/java/ghidra/file/formats/android/dex/DexToSmaliFileSystem.java:144-151 | storing a node only adds keys: exactly the node and its ancestors other than the root (none for the root) |
| `VirtualTree.StoreFirstWriterWins` | Ghidra/Features/FileFormats/src/main/java/ghidra/file/formats/android/dex/DexToSmaliFileSystem.java:147-149 | a key with a non-null backing file keeps it; a node that was absent or mapped to `null` gets the offered file |
| `VirtualTree.StoreAncestorsNull` | Ghidra/Features/FileFormats/src/main/java/ghidra/file/formats/android/dex/DexToSmaliFileSystem.java:150-151 | every ancestor of the stored node is a key afterwards, with its old value if it had one and `null` if it is new |
| `VirtualTree.StoreLeavesOthers` | Ghidra/Features/FileFormats/src/main/java/ghidra/file/formats/android/dex/DexToSmaliFileSystem.java:140-152 | keys outside the stored node's lineage keep their value |
| `VirtualTree.StorePreservesClosed` | Ghidra/Features/FileFormats/src/main/java/ghidra/file/formats/android/dex/DexToSmaliFileSystem.java:144-151 | if every key's non-root parent is a key, the same holds after storing, and the root is never a key |
| `VirtualTree.StoreAllKeys` | Ghidra/Features/FileFormats/src/main/java/ghidra/file/formats/android/dex/DexToSmaliFileSystem.java:126-137 | after indexing a list of files, the keys are the old keys, one node per file, and the lineage of `currentRoot` |
| `VirtualTree.StoreAllKeepsBacked` | Ghidra/Features/FileFormats/src/main/java/ghidra/file/formats/android/dex/DexToSmaliFileSystem.java:147-149 | indexing never replaces a non-null backing file already in the index |
| `VirtualTree.StoreAllFirstWins` | Ghidra/Features/FileFormats/src/main/java/ghidra/file/formats/android/dex/DexToSmaliFileSystem.java:134-149 | the first file that builds a given node is its backing file, when the node had none before; later files building the same node are dropped |
| `VirtualTree.SameNameCollides` | Ghidra/Features/FileFormats/src/main/java/ghidra/file/formats/android/dex/DexToSmaliFileSystem.java:123-136 | two walked files with the same base name give one node under the root, backed by the first file only |
| `VirtualTree.StoreAllPreservesClosed` | Ghidra/Features/FileFormats/src/main/java/ghidra/file/formats/android/dex/DexToSmaliFileSystem.java:126-152 | indexing keeps the index closed under non-root parents |
| `VirtualTree.ListingAfterIndexing` | Ghidra/Features/FileFormats/src/main/java/ghidra/file/formats/android/dex/DexToSmaliFileSystem.java:71-80 | after indexing, the children of `currentRoot` are its old children plus exactly one node per indexed file; synthesised ancestors are never among them |
| `VirtualTree.RootListingAfterOpen` | Ghidra/Features/FileFormats/src/main/java/ghidra/file/formats/android/dex/DexToSmaliFileSystem.java:62-69 | indexing a fresh filesystem under the root makes the root's listing exactly the nodes of the indexed files |
| `VirtualTree.FirstCancelled` | Ghidra/Features/FileFormats/src/main/java/ghidra/file/formats/android/dex/DexToSmaliFileSystem.java:126-131 | the number of files the walk processes: no earlier poll was cancelled, and the poll at that position, if any, was |
| `GFileUtility.InputStream.Read` | GPL/DMG/src/dmg/java/mobiledevices/dmg/ghidra/GFileUtilityMethods.java:27-28 | returns -1 at end of stream without consuming anything; otherwise puts the next chunk at the front of the buffer and returns its size |
| `GFileUtility.TempFile.Write` | GPL/DMG/src/dmg/java/mobiledevices/dmg/ghidra/GFileUtilityMethods.java:31 | appends exactly the requested slice of the buffer to the file |
| `GFileUtility.TempFile.Close` | GPL/DMG/src/dmg/java/mobiledevices/dmg/ghidra/GFileUtilityMethods.java:38-40 | marks the stream closed and leaves the contents alone |
| `GFileUtility.WriteTemporaryFile` | GPL/DMG/src/dmg/java/mobiledevices/dmg/ghidra/GFileUtilityMethods.java:19-42 | the new file, closed, holds exactly the concatenation of the chunks read before the loop exits; the stream has advanced by just those reads |
| `GFileUtility.WriteTemporaryFileDefault` | GPL/DMG/src/dmg/java/mobiledevices/dmg/ghidra/GFileUtilityMethods.java:15-17 | the capped copy with cap `Integer.MAX_VALUE`, advancing the stream by the reads it writes; an input shorter than that is copied whole |
| `GFileUtility.CopyIsPrefixOfInput` | GPL/DMG/src/dmg/java/mobiledevices/dmg/ghidra/GFileUtilityMethods.java:26-35 | the bytes written are a prefix of the whole input |
| `GFileUtility.CopyStopsAtFirstCapHit` | GPL/DMG/src/dmg/java/mobiledevices/dmg/ghidra/GFileUtilityMethods.java:26-35 | a copy that stops before end of stream has read at least once and written at least the cap; before the last read the total was below the cap |
| `GFileUtility.CopyOvershootBound` | GPL/DMG/src/dmg/java/mobiledevices/dmg/ghidra/GFileUtilityMethods.java:25-35 | with a positive cap and reads of at most 8192 bytes, fewer than cap + 8192 bytes are written |
| `GFileUtility.CopyNonPositiveCap` | GPL/DMG/src/dmg/java/mobiledevices/dmg/ghidra/GFileUtilityMethods.java:27-35 | with a cap of zero or less, exactly the first chunk is written (nothing at end of stream) |
| `GFileUtility.CopyShortInputWhole` | GPL/DMG/src/dmg/java/mobiledevices/dmg/ghidra/GFileUtilityMethods.java:26-36 | an input shorter than the cap is copied whole |
| `GFileUtility.CopyLongInputReachesCap` | GPL/DMG/src/dmg/java/mobiledevices/dmg/ghidra/GFileUtilityMethods.java:32-35 | an input at least as long as the cap yields at least cap bytes |
| `GFileUtility.CopyMayExceedCap` | GPL/DMG/src/dmg/java/mobiledevices/dmg/ghidra/GFileUtilityMethods.java:31-35 | one read of 8192 bytes under a cap of 100 writes all 8192 bytes |
| `GFileUtility.TempFilePrefix` | GPL/DMG/src/dmg/java/mobiledevices/dmg/ghidra/GFileUtilityMethods.java:45-52 | a `null` prefix becomes `"ghidra_file_system_"`; a prefix shorter than three UTF-16 code units is padded with `'_'` to exactly three units and keeps the original as a prefix; a longer one is unchanged |
| `GFileUtility.PaddingCountsCodeUnits` | GPL/DMG/src/dmg/java/mobiledevices/dmg/ghidra/GFileUtilityMethods.java:48-51 | padding counts UTF-16 code units: the one-character prefix U+1F600 is two units long and gets a single `'_'` |
| `GFileUtility.PrefixSpellsItsText` | GPL/DMG/src/dmg/java/mobiledevices/dmg/ghidra/GFileUtilityMethods.java:12 | the default prefix constant is the UTF-16 encoding of `"ghidra_file_system_"` |
| `GFileUtility.SuffixSpellsItsText` | GPL/DMG/src/dmg/java/mobiledevices/dmg/ghidra/GFileUtilityMethods.java:13 | the suffix constant is the UTF-16 encoding of `".tmp"` |
| `GFileUtility.WriteTemporaryFileBytes` | GPL/DMG/src/dmg/java/mobiledevices/dmg/ghidra/GFileUtilityMethods.java:44-63 | the new file, named with the padded prefix and suffix `.tmp`, holds the whole array and is closed |

## Left out

- The Baksmali disassembly and its options: an external library. `Open` takes its success flag as the parameter `disassembled`.
- `isValid` and `DexConstants.isDexFile`: the magic-number check is in a class that is not part of this model.
- `SecureRandom` naming of the output directory and `Application.getUserTempDirectory`: randomness and host paths.
- `FileUtils.iterateFiles`: the walk is a given list of host files (`produced`), in walk order. The monitor's `isCancelled` is a given answer per step (`cancelled`). `monitor.setMessage` is not modelled.
- `GFileImpl.fromFilename` and `GFileImpl` equality: those classes are not part of this model.
  - A walked file becomes `Entry(f.name, currentRoot)` (`NodeFor`).
  - Splitting a name that contains path separators is not modelled.
  - A node is its name and its parent; the `GFile`'s directory flag and length are not part of the key. They are read from the backing host file, and a node mapped to `null` has neither.
- `FileByteProvider` construction: `GetByteProvider` returns the backing host file itself.
- `super.close()` in `close`: `GFileSystemBase` is not part of this model.
- `DexToSmali.DexToSmaliFileSystem.GetListing`: promises which keys are listed, each once, but not their order, which is the hash map's iteration order.
- `Files.createTempFile`, `deleteOnExit` and the OS file writes: OS plumbing. A `TempFile` object records the prefix, the suffix and the bytes written.
- IOExceptions from `read`, `write` or `close`: not modelled. The only exits of the copy loop are end of stream and the cap, and on both the stream is closed as the `finally` block does.
- `GFileUtility.WriteTemporaryFile`: its `closed` promise covers the normal exits only (end of stream and the cap); the `finally` close after an IOException from `read` or `write` is not modelled.
- `GFileUtility.WriteTemporaryFileBytes`: its `closed` promise covers the normal exit only; the `finally` close after an IOException from `write` is not modelled.
- `GFileUtility.WriteTemporaryFile`: `nWritten` is an unbounded integer here. Java's 32-bit wrap-around, which a stream longer than `Integer.MAX_VALUE` bytes could cause, is not modelled.
- `GFileUtility.WriteTemporaryFileDefault`: the wrap-around matters most here. With cap `Integer.MAX_VALUE`, Java stops only when the total lands exactly on 2^31-1; otherwise `nWritten` turns negative and the copy goes on. The model stops at the first total of 2^31-1 or more.
- `GFileUtility.WriteTemporaryFileBytes`: a `null` byte array, which makes Java's `write` fail after the file was created, cannot be passed, since Dafny arrays are non-null.
- The commented-out DEX header parsing after the class: dead code.
- `ClearExternalNameCmd`: a one-call wrapper over a class that is not part of this model.
- Concurrency: the index is modelled as used from one thread.

