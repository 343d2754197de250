# ByteUtil transform task and join-point store, in Dafny

ByteUtil is a Gradle plugin that instruments Android bytecode at build time. Its transform
task reads every input jar and class directory and sorts each entry.

- A **pass-through** entry is one the plugin does not rewrite: a resource, an Android `R`
  class, the plugin's own runtime package, or a class the build says to skip.
  - Pass-through jar entries are copied once into a mirror directory (`notNeedOutput`).
    Incremental builds reuse the mirror.
  - Pass-through directory files are written straight into the output jar.
- **Every other class** is parsed, handed to the modifiers, and later written to the output
  jar under its original name.

After the scan, the task deletes mirror files that no longer belong to any input, then any
directory left empty (`cleanNotNeedOutput`). It then writes the transformed classes
(`process`).

The runtime library keeps a process-wide store of join points. A join point is the receiver
and the arguments captured at an intercepted call. The store's key is the calling thread's
id, a dash, and a logical key.

The project has these modules:

- `Paths` (paths.dfy): names as component lists, with `Split` and `Join` and their round trips.
- `EntryClassifier` (classifier.dfy): the pass-through test `notNeedEntries` and `checkAndroidRFile`.
- `FileTree` (file_tree.dfy): the mirror directory as a tree of paths and bytes.
  - Creating a file, as `mkdirs` plus `createNewFile` do it, fails when the file system would refuse.
  - Deleting a file.
  - The bottom-up prune, proved equal to a walk-free description of its result for every bottom-up order.
- `TransformTask` (transform_task.dfy): the routing of one build, in two forms.
  - Functions over a `ScanState` value: `RouteJar`, `RouteDir`, `Route`, `Package` and `Build`.
  - The class `Transformer`, whose fields are the mirror, the keep-set `allNotNeedFileSet`,
    the work list `needs` and the output jar. Its methods are the task's loops, each proved
    to follow the corresponding function.
- `TransformProperties` (transform_properties.dfy): what a build guarantees, proved about those functions.
  - Each entry ends up in exactly one place.
  - The mirror holds exactly the pass-through files.
  - The output jar's contents are determined.
  - A second build over the mirror the first one left changes nothing.
- `JoinPointStore` (join_point.dfy): the key encoding, its injectivity, and the class `Store`.
- `Wrappers` (wrappers.dfy): `Option`.

`Store.Get` is a function that only reads the map, so a lookup cannot change the store.

The model is sequential: it processes jars, then directories, one entry at a time in input
order. The task's thread pool runs one scan per input side by side. Only the keep-set, the
work list and the output jar are updated under `synchronized`. The mirror writes and deletes
are not, so the model covers only runs in which no two inputs share a mirror file (see
"Left out").

### Inputs and parameters

These become parameters of the model:

- `notNeed`: the build's skip predicate.
- `sep`: the platform's `File.separatorChar`.
- `emit`: the bytes a transformed class is written as. This covers the modifiers' scan and
  modify phases and ASM serialisation. `emit` is fixed for one build. For each work item it
  gives the bytes that `modify()` over the whole work list leaves for that class, so a class
  may depend on other classes. `BuildIdempotent` compares two builds with the same `emit`,
  which assumes the modifiers are deterministic.
- The calling thread's id, in the join-point store.

Class bytes stand for the parsed class. A jar is a sequence of named entries. A directory is
a sequence of files, each with its root-relative path, in walk order.

### Where the code decides

- The directory walk drops only files whose own name is `META-INF`. `walk()` still descends
  into a `META-INF` directory, so `META-INF/MANIFEST.MF` in a class directory is routed like any
  other file. Being no class, it goes to the output jar (`MetaInfDirectoryContentsRouted`).
- Jar entries are skipped by a plain prefix test on `META-INF`, so `META-INFO.txt` is skipped too.
- The output jar holds the directories' pass-through files as well as the transformed classes.
- `checkAndroidRFile` is a suffix test. Any class whose simple name ends in `R`, such as
  `com/example/UR.class`, counts as an Android `R` class and is never transformed
  (`SuffixTestMatchesNamesEndingInR`). The model keeps this behaviour.

## Model

| member | source | states |
|---|---|---|
| EntryClassifier.AndroidRSuffix | lib_bcu_plugin/src/main/java/com/ysj/lib/bytecodeutil/plugin/TransformTask.kt:274-293 | each of the 19 Android R suffixes tested ends in .class |
| EntryClassifier.IsAndroidRFile | lib_bcu_plugin/src/main/java/com/ysj/lib/bytecodeutil/plugin/TransformTask.kt:274-293 | checkAndroidRFile: the name ends in one of the 19 R suffixes; AndroidRFileIsClassFile shows every such name is a class file |
| EntryClassifier.NotNeedEntries | lib_bcu_plugin/src/main/java/com/ysj/lib/bytecodeutil/plugin/TransformTask.kt:268-272 | notNeedEntries; NeedsTransformIff gives both directions of when it is false, AlwaysPassThrough and CallerRuleDecidesTheRest when it is true |
| EntryClassifier.AndroidRFileIsClassFile | lib_bcu_plugin/src/main/java/com/ysj/lib/bytecodeutil/plugin/TransformTask.kt:274-293 | every name checkAndroidRFile accepts ends in .class |
| EntryClassifier.AlwaysPassThrough | lib_bcu_plugin/src/main/java/com/ysj/lib/bytecodeutil/plugin/TransformTask.kt:268-272 | a name that is no .class, an Android R class, or inside com/ysj/lib/bytecodeutil/ is pass-through whatever the build's predicate says |
| EntryClassifier.NeedsTransformIff | lib_bcu_plugin/src/main/java/com/ysj/lib/bytecodeutil/plugin/TransformTask.kt:268-293 | an entry is transformed if and only if it ends in .class, matches no R suffix, lies outside the reserved package, and the build's predicate rejects it |
| EntryClassifier.CallerRuleDecidesTheRest | lib_bcu_plugin/src/main/java/com/ysj/lib/bytecodeutil/plugin/TransformTask.kt:268-272 | for any other class the build's predicate alone decides |
| EntryClassifier.SuffixTestMatchesNamesEndingInR | lib_bcu_plugin/src/main/java/com/ysj/lib/bytecodeutil/plugin/TransformTask.kt:274-275 | the R.class test also matches a class whose simple name merely ends in R |
| Paths.Split | lib_bcu_plugin/src/main/java/com/ysj/lib/bytecodeutil/plugin/TransformTask.kt:169 | a name splits into at least one component, none containing the separator |
| Paths.JoinSplit | lib_bcu_plugin/src/main/java/com/ysj/lib/bytecodeutil/plugin/TransformTask.kt:169 | joining the components of a split name gives the name back |
| Paths.SplitInjective | lib_bcu_plugin/src/main/java/com/ysj/lib/bytecodeutil/plugin/TransformTask.kt:169 | different names split differently |
| Paths.SplitJoin | lib_bcu_plugin/src/main/java/com/ysj/lib/bytecodeutil/plugin/TransformTask.kt:211-213 | splitting a join of separator-free components gives the components back |
| Paths.Replace | lib_bcu_plugin/src/main/java/com/ysj/lib/bytecodeutil/plugin/TransformTask.kt:213 | the result has the input's length, no occurrence of the replaced character survives when the replacement differs, and no other character is introduced |
| Paths.ReplaceAbsent | lib_bcu_plugin/src/main/java/com/ysj/lib/bytecodeutil/plugin/TransformTask.kt:213 | replacing a character the string does not contain leaves the string unchanged |
| TransformTask.MirrorPath | lib_bcu_plugin/src/main/java/com/ysj/lib/bytecodeutil/plugin/TransformTask.kt:169 | an entry's mirror path is a non-empty component list whose '/'-join is the entry name |
| TransformTask.MirrorPathInjective | lib_bcu_plugin/src/main/java/com/ysj/lib/bytecodeutil/plugin/TransformTask.kt:169 | different entry names have different component lists |
| TransformTask.DirEntryName | lib_bcu_plugin/src/main/java/com/ysj/lib/bytecodeutil/plugin/TransformTask.kt:211-213 | a directory file's entry name has the length of its '/'-joined relative path and contains no platform separator other than '/' |
| TransformTask.DirEntryNameIsSlashJoin | lib_bcu_plugin/src/main/java/com/ysj/lib/bytecodeutil/plugin/TransformTask.kt:211-213 | a directory file's entry name is its relative path with the components joined by / |
| TransformTask.DirEntryNameRoundTrip | lib_bcu_plugin/src/main/java/com/ysj/lib/bytecodeutil/plugin/TransformTask.kt:211-213 | the entry name of a directory file denotes that same relative path |
| FileTree.CreateFile | lib_bcu_plugin/src/main/java/com/ysj/lib/bytecodeutil/plugin/TransformTask.kt:171-182 | creating a mirror file fails exactly when a directory is in its place or a file in the place of one of its parents; otherwise it adds the file with its bytes and its parent directories and keeps the tree well formed |
| FileTree.DeleteFile | lib_bcu_plugin/src/main/java/com/ysj/lib/bytecodeutil/plugin/TransformTask.kt:187-189 | deleting removes only that file, keeps every other file's bytes and every directory, and keeps the tree well formed |
| FileTree.HasChild | lib_bcu_plugin/src/main/java/com/ysj/lib/bytecodeutil/plugin/TransformTask.kt:143 | `list()` is not empty; DirTestAgrees shows that at visit time it holds exactly when a kept file lies below |
| FileTree.PruneStep | lib_bcu_plugin/src/main/java/com/ysj/lib/bytecodeutil/plugin/TransformTask.kt:141-149 | one visit of the walk; PruneInvariant and PruneMeetsSpec state what a sequence of visits leaves |
| FileTree.Prune | lib_bcu_plugin/src/main/java/com/ysj/lib/bytecodeutil/plugin/TransformTask.kt:139-150 | the walk over a given order; PruneMeetsSpec shows it equals PruneSpec for every bottom-up order |
| FileTree.PruneMeetsSpec | lib_bcu_plugin/src/main/java/com/ysj/lib/bytecodeutil/plugin/TransformTask.kt:137-151 | for every bottom-up order, the walk deletes every file outside the keep-set and every directory with no kept file below it, and nothing else |
| FileTree.PruneInvariant | lib_bcu_plugin/src/main/java/com/ysj/lib/bytecodeutil/plugin/TransformTask.kt:137-151 | after visiting a prefix of the walk, a file is gone exactly when it was visited and is outside the keep-set, and a directory is gone exactly when it was visited with no kept file below it |
| FileTree.DirTestAgrees | lib_bcu_plugin/src/main/java/com/ysj/lib/bytecodeutil/plugin/TransformTask.kt:142-145 | when the walk reaches a directory, the directory still lists a child exactly when a kept file lies below it |
| FileTree.PruneSpecWellFormed | lib_bcu_plugin/src/main/java/com/ysj/lib/bytecodeutil/plugin/TransformTask.kt:137-151 | pruning leaves a well-formed tree |
| FileTree.PruneSpecIdempotent | lib_bcu_plugin/src/main/java/com/ysj/lib/bytecodeutil/plugin/TransformTask.kt:137-151 | pruning a pruned mirror again changes nothing |
| TransformTask.IsDirectoryEntry | lib_bcu_plugin/src/main/java/com/ysj/lib/bytecodeutil/plugin/TransformTask.kt:166 | ZipEntry.isDirectory, a name ending in '/'; SkippedEntryNowhere shows such an entry reaches neither the keep-set nor the work list |
| TransformTask.Skipped | lib_bcu_plugin/src/main/java/com/ysj/lib/bytecodeutil/plugin/TransformTask.kt:166-168 | the entries the jar loop passes over; SkippedEntryNowhere shows they reach neither the keep-set nor the work list |
| TransformTask.RouteJarEntry | lib_bcu_plugin/src/main/java/com/ysj/lib/bytecodeutil/plugin/TransformTask.kt:166-197 | the body of the jar loop for one entry; RouteJarEntryEffect gives its effect on the keep-set, the work list and the output jar, and RouteJarMirror its effect on the mirror |
| TransformTask.RouteJar | lib_bcu_plugin/src/main/java/com/ysj/lib/bytecodeutil/plugin/TransformTask.kt:165-198 | the jar loop, stopping at the first failure; RouteJarEffect, RouteJarMirror and RouteJarAppend specify it |
| TransformTask.RouteJars | lib_bcu_plugin/src/main/java/com/ysj/lib/bytecodeutil/plugin/TransformTask.kt:161-201 | every jar in turn; RouteJarsFlatten shows it is the jar loop over all entries |
| TransformTask.RouteDirFile | lib_bcu_plugin/src/main/java/com/ysj/lib/bytecodeutil/plugin/TransformTask.kt:207-231 | the body of the directory loop for one file; RouteDirFileEffect gives its effect on the output jar and the work list |
| TransformTask.RouteDir | lib_bcu_plugin/src/main/java/com/ysj/lib/bytecodeutil/plugin/TransformTask.kt:207-231 | the directory loop; RouteDirEffect gives the whole state it leaves |
| TransformTask.RouteDirs | lib_bcu_plugin/src/main/java/com/ysj/lib/bytecodeutil/plugin/TransformTask.kt:203-233 | every directory in turn; RouteDirsFlatten shows it is the directory loop over all files |
| TransformTask.Route | lib_bcu_plugin/src/main/java/com/ysj/lib/bytecodeutil/plugin/TransformTask.kt:153-237 | scanAll; BuildScan gives the state it leaves from an empty keep-set, work list and output jar |
| TransformTask.Package | lib_bcu_plugin/src/main/java/com/ysj/lib/bytecodeutil/plugin/TransformTask.kt:239-258 | process; PackageEntries shows one entry per work item, in order, named after the item |
| TransformTask.Build | lib_bcu_plugin/src/main/java/com/ysj/lib/bytecodeutil/plugin/TransformTask.kt:98-135 | transform; BuildMirrorExact, BuildOutput, BuildPlacesJarEntry and BuildIdempotent state what it leaves |
| TransformTask.RouteJarWellFormed | lib_bcu_plugin/src/main/java/com/ysj/lib/bytecodeutil/plugin/TransformTask.kt:165-198 | a jar scan keeps the mirror a well-formed tree |
| TransformTask.RouteDirLeavesMirror | lib_bcu_plugin/src/main/java/com/ysj/lib/bytecodeutil/plugin/TransformTask.kt:207-231 | a directory walk touches neither the mirror nor the keep-set |
| TransformProperties.RouteJarEntryOnSettled | lib_bcu_plugin/src/main/java/com/ysj/lib/bytecodeutil/plugin/TransformTask.kt:166-197 | over a mirror that already agrees with an entry, the entry neither creates nor deletes a file |
| TransformTask.RouteJarFailureSticks | lib_bcu_plugin/src/main/java/com/ysj/lib/bytecodeutil/plugin/TransformTask.kt:163-199 | once creating a mirror file has failed, the rest of the jar cannot make the scan succeed |
| TransformTask.RouteJarsFailureSticks | lib_bcu_plugin/src/main/java/com/ysj/lib/bytecodeutil/plugin/TransformTask.kt:161-201 | a failed jar fails the whole scan |
| TransformTask.RouteWellFormed | lib_bcu_plugin/src/main/java/com/ysj/lib/bytecodeutil/plugin/TransformTask.kt:153-237 | scanning keeps the mirror a well-formed tree |
| TransformTask.RouteDirsLeaveMirror | lib_bcu_plugin/src/main/java/com/ysj/lib/bytecodeutil/plugin/TransformTask.kt:203-233 | scanning directories touches neither the mirror nor the keep-set |
| TransformTask.Transformer.ScanJar | lib_bcu_plugin/src/main/java/com/ysj/lib/bytecodeutil/plugin/TransformTask.kt:161-199 | the jar loop succeeds exactly when the routing of its entries does, and then leaves exactly the state that routing gives |
| TransformTask.Transformer.ScanDir | lib_bcu_plugin/src/main/java/com/ysj/lib/bytecodeutil/plugin/TransformTask.kt:203-233 | the directory loop leaves exactly the state the routing of its files gives |
| TransformTask.Transformer.ScanAll | lib_bcu_plugin/src/main/java/com/ysj/lib/bytecodeutil/plugin/TransformTask.kt:153-237 | scanAll succeeds exactly when the routing of all jars does, and then leaves exactly the routed state |
| TransformTask.Transformer.WalkBottomUp | lib_bcu_plugin/src/main/java/com/ysj/lib/bytecodeutil/plugin/TransformTask.kt:139-140 | the walk visits every node of the mirror, each directory after everything below it |
| FileTree.WalkStep | lib_bcu_plugin/src/main/java/com/ysj/lib/bytecodeutil/plugin/TransformTask.kt:139-140 | visiting a longest pending path keeps the walk deepest-first |
| FileTree.LongestFirstIsPostOrder | lib_bcu_plugin/src/main/java/com/ysj/lib/bytecodeutil/plugin/TransformTask.kt:139-140 | a walk that visits every node, longer paths first, visits each directory after everything below it |
| TransformTask.Transformer.CleanNotNeedOutput | lib_bcu_plugin/src/main/java/com/ysj/lib/bytecodeutil/plugin/TransformTask.kt:137-151 | after cleaning, the mirror holds exactly the keep-set's files with their bytes and the directories above them, and is well formed |
| TransformTask.Transformer.Process | lib_bcu_plugin/src/main/java/com/ysj/lib/bytecodeutil/plugin/TransformTask.kt:239-258 | process drains the work list, appending one entry per item in list order |
| TransformTask.Transformer.Transform | lib_bcu_plugin/src/main/java/com/ysj/lib/bytecodeutil/plugin/TransformTask.kt:98-135 | a build ends with exactly the mirror and output jar given by scanning, pruning and packaging, and fails exactly when a mirror file cannot be created (the other failures are listed under Left out) |
| TransformProperties.RouteJarEntryEffect | lib_bcu_plugin/src/main/java/com/ysj/lib/bytecodeutil/plugin/TransformTask.kt:166-197 | one jar entry adds its mirror path to the keep-set if it is pass-through, queues one work item at the front if it needs transforming, and writes nothing to the output jar |
| TransformProperties.RouteJarEffect | lib_bcu_plugin/src/main/java/com/ysj/lib/bytecodeutil/plugin/TransformTask.kt:165-198 | a jar scan adds exactly the pass-through entries' paths to the keep-set and queues exactly the others, last entry first |
| TransformProperties.RouteJarKeep | lib_bcu_plugin/src/main/java/com/ysj/lib/bytecodeutil/plugin/TransformTask.kt:170-185 | the keep-set grows by exactly the pass-through entries' mirror paths |
| TransformProperties.RouteJarQueue | lib_bcu_plugin/src/main/java/com/ysj/lib/bytecodeutil/plugin/TransformTask.kt:186-197 | the work list grows by exactly the transformed entries, pushed at the front |
| TransformProperties.RouteJarAppend | lib_bcu_plugin/src/main/java/com/ysj/lib/bytecodeutil/plugin/TransformTask.kt:161-199 | scanning two runs of entries one after the other is scanning their concatenation |
| TransformProperties.RouteJarsFlatten | lib_bcu_plugin/src/main/java/com/ysj/lib/bytecodeutil/plugin/TransformTask.kt:161-201 | scanning the jars one after the other is scanning all their entries in sequence |
| TransformProperties.QueuedMembers | lib_bcu_plugin/src/main/java/com/ysj/lib/bytecodeutil/plugin/TransformTask.kt:186-197 | the work list holds an item if and only if some entry needs transforming and has that name and bytes |
| TransformProperties.JarEntryRoutedOnce | lib_bcu_plugin/src/main/java/com/ysj/lib/bytecodeutil/plugin/TransformTask.kt:169-197 | an entry that is not skipped is in the keep-set if and only if it is pass-through, and among the transformed paths and the work list if and only if it is not |
| TransformProperties.SkippedEntryNowhere | lib_bcu_plugin/src/main/java/com/ysj/lib/bytecodeutil/plugin/TransformTask.kt:166-168 | a directory entry or a META-INF entry reaches neither the keep-set nor the work list |
| TransformProperties.RouteJarMirror | lib_bcu_plugin/src/main/java/com/ysj/lib/bytecodeutil/plugin/TransformTask.kt:171-189 | a jar scan only creates the mirror files of pass-through entries, each holding the bytes of the first pass-through entry with its path; only deletes those of transformed entries; never changes the bytes of a file already there; and ends with every entry's file present or absent according to its route |
| TransformProperties.RouteJarOnSettled | lib_bcu_plugin/src/main/java/com/ysj/lib/bytecodeutil/plugin/TransformTask.kt:171-189 | over a mirror that already agrees with the entries, a jar scan creates, deletes and overwrites nothing and only records the keep-set and the work list |
| TransformProperties.RouteJarKeepsSettledMirror | lib_bcu_plugin/src/main/java/com/ysj/lib/bytecodeutil/plugin/TransformTask.kt:171-189 | over a mirror that already agrees with the entries, a jar scan succeeds and leaves the mirror untouched |
| TransformProperties.RouteJarIdempotent | lib_bcu_plugin/src/main/java/com/ysj/lib/bytecodeutil/plugin/TransformTask.kt:171-189 | scanning the same jar again over the mirror the first scan left gives the same result |
| TransformProperties.RouteDirAppend | lib_bcu_plugin/src/main/java/com/ysj/lib/bytecodeutil/plugin/TransformTask.kt:207-231 | walking two runs of files one after the other is walking their concatenation |
| TransformProperties.RouteDirsFlatten | lib_bcu_plugin/src/main/java/com/ysj/lib/bytecodeutil/plugin/TransformTask.kt:203-233 | walking the directories one after the other is walking all their files in sequence |
| TransformProperties.RouteDirFileEffect | lib_bcu_plugin/src/main/java/com/ysj/lib/bytecodeutil/plugin/TransformTask.kt:211-229 | one directory file appends its output entry if it is pass-through and pushes its work item if it needs transforming |
| TransformProperties.RouteDirJos | lib_bcu_plugin/src/main/java/com/ysj/lib/bytecodeutil/plugin/TransformTask.kt:214-221 | a directory walk appends exactly the pass-through files to the output jar, in walk order |
| TransformProperties.RouteDirNeeds | lib_bcu_plugin/src/main/java/com/ysj/lib/bytecodeutil/plugin/TransformTask.kt:222-229 | a directory walk pushes exactly the transformed files onto the front of the work list |
| TransformProperties.DirPassEntriesAppend | lib_bcu_plugin/src/main/java/com/ysj/lib/bytecodeutil/plugin/TransformTask.kt:207-221 | the output entries of two runs of files are those of the first followed by those of the second |
| TransformProperties.DirQueuedAppend | lib_bcu_plugin/src/main/java/com/ysj/lib/bytecodeutil/plugin/TransformTask.kt:207-230 | the work items of two runs of files are those of the second in front of those of the first |
| TransformProperties.RouteDirEffect | lib_bcu_plugin/src/main/java/com/ysj/lib/bytecodeutil/plugin/TransformTask.kt:207-231 | a directory walk writes exactly the pass-through files to the output jar in walk order, queues exactly the others at the front, and leaves the mirror and the keep-set alone |
| TransformProperties.DirPassMembers | lib_bcu_plugin/src/main/java/com/ysj/lib/bytecodeutil/plugin/TransformTask.kt:207-221 | the output jar receives an entry if and only if some file not named META-INF is pass-through under its normalised name and has those bytes |
| TransformProperties.DirQueuedMembers | lib_bcu_plugin/src/main/java/com/ysj/lib/bytecodeutil/plugin/TransformTask.kt:207-230 | the work list receives an item if and only if some file not named META-INF needs transforming under its normalised name |
| TransformProperties.MetaInfDirectoryContentsRouted | lib_bcu_plugin/src/main/java/com/ysj/lib/bytecodeutil/plugin/TransformTask.kt:207-221 | a file inside a META-INF directory of a class directory is still written to the output jar |
| TransformProperties.PackageEntries | lib_bcu_plugin/src/main/java/com/ysj/lib/bytecodeutil/plugin/TransformTask.kt:242-253 | packaging yields exactly one entry per work item, in order, named after the item |
| TransformProperties.BuildScan | lib_bcu_plugin/src/main/java/com/ysj/lib/bytecodeutil/plugin/TransformTask.kt:153-237 | a build's scan leaves the pass-through jar paths as the keep-set, all transformed entries as the work list, and the directories' pass-through files as the output jar |
| TransformProperties.BuildMirrorExact | lib_bcu_plugin/src/main/java/com/ysj/lib/bytecodeutil/plugin/TransformTask.kt:98-151 | after a build the mirror holds exactly the pass-through jar entries' files; a file that was already there keeps its bytes, and a new file holds the bytes of the first pass-through entry with its path |
| TransformProperties.BuildCopiesFirstEntry | lib_bcu_plugin/src/main/java/com/ysj/lib/bytecodeutil/plugin/TransformTask.kt:169-182 | a mirror file a build creates is a byte-for-byte copy of the first pass-through jar entry with that path |
| TransformProperties.BuildOutput | lib_bcu_plugin/src/main/java/com/ysj/lib/bytecodeutil/plugin/TransformTask.kt:98-135 | a build's output jar is the directories' pass-through files followed by one entry per queued class |
| TransformProperties.BuildPlacesJarEntry | lib_bcu_plugin/src/main/java/com/ysj/lib/bytecodeutil/plugin/TransformTask.kt:98-197 | after a build, every jar entry that is not skipped has its mirror file if and only if it is pass-through, and an output entry under its own name otherwise |
| TransformProperties.BuildIdempotent | lib_bcu_plugin/src/main/java/com/ysj/lib/bytecodeutil/plugin/TransformTask.kt:98-197 | building again with the same inputs over the mirror a build left yields the same mirror and output jar |
| JoinPointStore.ThreadIdText | lib_bytecodeutil_api/src/main/java/com/ysj/lib/bytecodeutil/api/aspect/JoinPoint.kt:23 | a thread id prints as a non-empty string of decimal digits |
| JoinPointStore.ParseThreadIdText | lib_bytecodeutil_api/src/main/java/com/ysj/lib/bytecodeutil/api/aspect/JoinPoint.kt:23 | reading a printed thread id back gives the id |
| JoinPointStore.StoreKeyInjective | lib_bytecodeutil_api/src/main/java/com/ysj/lib/bytecodeutil/api/aspect/JoinPoint.kt:23 | the key built from a thread id and a key determines both |
| JoinPointStore.StoreKey | lib_bytecodeutil_api/src/main/java/com/ysj/lib/bytecodeutil/api/aspect/JoinPoint.kt:23 | the key "threadId-key"; StoreKeyInjective shows it determines the thread id and the key |
| JoinPointStore.Lookup | lib_bytecodeutil_api/src/main/java/com/ysj/lib/bytecodeutil/api/aspect/JoinPoint.kt:32 | get on a map; LookupAfterPut, LookupAfterRemove and the isolation lemmas specify it |
| JoinPointStore.PutEntry | lib_bytecodeutil_api/src/main/java/com/ysj/lib/bytecodeutil/api/aspect/JoinPoint.kt:22-24 | put on a map; LookupAfterPut, PutOverwrites and LookupAfterPutOther specify it |
| JoinPointStore.RemoveEntry | lib_bytecodeutil_api/src/main/java/com/ysj/lib/bytecodeutil/api/aspect/JoinPoint.kt:27-29 | remove on a map; LookupAfterRemove, LookupAfterRemoveOther and RemoveAbsentUnchanged specify it |
| JoinPointStore.Store.Get | lib_bytecodeutil_api/src/main/java/com/ysj/lib/bytecodeutil/api/aspect/JoinPoint.kt:32 | get reads the store and changes nothing; Store.Put and Store.Remove state what it returns after each update |
| JoinPointStore.LookupAfterPut | lib_bytecodeutil_api/src/main/java/com/ysj/lib/bytecodeutil/api/aspect/JoinPoint.kt:22-24 | get right after put on the same thread and key returns the value put |
| JoinPointStore.PutOverwrites | lib_bytecodeutil_api/src/main/java/com/ysj/lib/bytecodeutil/api/aspect/JoinPoint.kt:22-24 | a second put on the same thread and key replaces the first |
| JoinPointStore.LookupAfterRemove | lib_bytecodeutil_api/src/main/java/com/ysj/lib/bytecodeutil/api/aspect/JoinPoint.kt:27-29 | get after remove on the same thread and key finds nothing |
| JoinPointStore.LookupAfterPutOther | lib_bytecodeutil_api/src/main/java/com/ysj/lib/bytecodeutil/api/aspect/JoinPoint.kt:22-24 | put leaves get unchanged for every other pair of thread and key, the same key on another thread included |
| JoinPointStore.LookupAfterRemoveOther | lib_bytecodeutil_api/src/main/java/com/ysj/lib/bytecodeutil/api/aspect/JoinPoint.kt:27-29 | remove leaves get unchanged for every other pair of thread and key |
| JoinPointStore.RemoveAbsentUnchanged | lib_bytecodeutil_api/src/main/java/com/ysj/lib/bytecodeutil/api/aspect/JoinPoint.kt:27-29 | removing a key with no entry leaves the store as it was |
| JoinPointStore.Store.constructor | lib_bytecodeutil_api/src/main/java/com/ysj/lib/bytecodeutil/api/aspect/JoinPoint.kt:19 | the store starts empty |
| JoinPointStore.Store.Put | lib_bytecodeutil_api/src/main/java/com/ysj/lib/bytecodeutil/api/aspect/JoinPoint.kt:22-24 | put stores the value under the thread's key, get then returns it, and every other pair's entry is unchanged |
| JoinPointStore.Store.Remove | lib_bytecodeutil_api/src/main/java/com/ysj/lib/bytecodeutil/api/aspect/JoinPoint.kt:27-29 | remove deletes the thread's key only, get then finds nothing, and removing an absent key changes nothing |

## Left out

- Concurrency: the thread pool, the fail-fast `exec` helper, `CountDownLatch`, `AtomicReference` and the `synchronized` blocks. Scans, pruning and packaging run sequentially; the work list and the output jar follow input order instead of thread interleaving.
- Pruning running concurrently with the modify phase. The model prunes after the scan and before packaging, which touch disjoint state.
- Gradle wiring, extension lookup, modifier registration, logging and timing in `taskAction`: build-tool plumbing.
- ASM parsing and serialisation, and `ModifierManager.scan` / `modify`: foreign code. A class is its bytes, and the written bytes are the parameter `emit`.
- The `ZipException` the output jar raises for a duplicate entry name: the model's output jar is a plain sequence and may hold duplicates.
- `java.io.File` path handling: a mirror path is the entry name split at every `/`, so different names always give different paths. On disk this is not so:
  - `File` drops empty components (`a//b`, a leading or trailing `/`).
  - A `.` component names the same file as its parent. For an entry `a/./b.txt` the source writes `a/b.txt`, but records `File("…/a/./b.txt")` in the keep-set. The walk then yields `File("…/a/b.txt")`, which is not equal as a path string, so the source deletes the file again on every build. The model keeps the file (`BuildMirrorExact`).
  - A `..` component can place the file outside the mirror directory altogether.
  - A case-insensitive file system merges names that differ only in case.
- Concurrent mirror writes. The copy at lines 171-182 and the delete at 187-189 are not synchronised. If two jars scanned in parallel share a pass-through name, both tasks can find no file and both copy, so the file ends with either jar's bytes or a mix. The model gives it the bytes of the first entry in input order.
- Failures other than a mirror file that cannot be created: exceptions from `ModifierManager.scan` (line 264) and `modify()` (line 118), from ClassReader and ClassWriter, and from reading or writing streams. `Transform` therefore fails exactly when creating a mirror file fails.
- The exact order of `walkBottomUp`. The pruning result is proved the same for every bottom-up order, and `WalkBottomUp` produces one, deepest paths first.
- The JoinPoint record's `Serializable` marker and the thread safety of `ConcurrentHashMap`: only the sequential map semantics are modelled. Objects are referred to by an abstract identity, and the current thread's id is a parameter.
- demo_plugin/build.gradle.kts: build configuration with no logic.
