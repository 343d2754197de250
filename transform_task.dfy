/**
 * The transform task of the build plugin, run sequentially: scanning jar and directory
 * inputs (scanAll), pruning the mirror of pass-through entries (cleanNotNeedOutput) and
 * writing the transformed classes to the output jar (process).
 *
 * The routing of one build is first given by functions over a ScanState value; the
 * class Transformer holds the same state in fields and its methods are proved to
 * follow those functions.
 */
module TransformTask {
  import opened Wrappers
  import opened Paths
  import opened EntryClassifier
  import opened FileTree

  /** An entry of an input jar, in the jar's entry order. */
  datatype JarEntry = JarEntry(name: string, data: Bytes)

  /** A file of an input directory: its path below the directory root and its bytes. */
  datatype DirFile = DirFile(rel: Path, data: Bytes)

  /**
   * ProcessItem: an entry handed to the modifiers. The parsed class (ClassReader and
   * ClassNode) is represented by the bytes it was parsed from.
   */
  datatype WorkItem = WorkItem(entryName: string, classBytes: Bytes)

  /** An entry written to the output jar. */
  datatype OutEntry = OutEntry(name: string, data: Bytes)

  /**
   * The state a scan builds up: the mirror directory, the keep-set allNotNeedFileSet,
   * the work list `needs` (front first) and the entries written to the output jar.
   */
  datatype ScanState = ScanState(mirror: Tree, keep: set<Path>, needs: seq<WorkItem>, jos: seq<OutEntry>)

  /** ZipEntry.isDirectory: the entry's name ends in '/'. */
  predicate IsDirectoryEntry(e: JarEntry) {
    EndsWith(e.name, "/")
  }

  /** Jar entries that the scan ignores entirely. */
  predicate Skipped(e: JarEntry) {
    IsDirectoryEntry(e) || StartsWith(e.name, "META-INF")
  }

  /**
   * File(notNeedOutputDir, name): the path of an entry below the mirror root, one
   * component per '/'-separated part of the name; joining them gives the name back.
   */
  function MirrorPath(name: string): (p: Path)
    ensures p != [] && Join(p, '/') == name
  {
    JoinSplit(name, '/');
    Split(name, '/')
  }

  /** Different entry names have different component lists. */
  lemma MirrorPathInjective(a: string, b: string)
    requires MirrorPath(a) == MirrorPath(b)
    ensures a == b
  {
    SplitInjective(a, b, '/');
  }

  /**
   * The entry name of a directory file: the root-relative URI path (components joined
   * by '/') with File.separatorChar replaced by '/'.
   */
  function DirEntryName(rel: Path, sep: char): (name: string)
    ensures |name| == |Join(rel, '/')|
    ensures sep != '/' ==> sep !in name
  {
    Replace(Join(rel, '/'), sep, '/')
  }

  /** When no component contains the platform separator, the entry name is the '/'-joined relative path. */
  lemma DirEntryNameIsSlashJoin(rel: Path, sep: char)
    requires forall k :: 0 <= k < |rel| ==> sep !in rel[k]
    ensures DirEntryName(rel, sep) == Join(rel, '/')
  {
    if sep == '/' {
      var s := Join(rel, '/');
      assert Replace(s, sep, '/') == s;
    } else {
      if sep in Join(rel, '/') {
        JoinChars(rel, '/', sep);
      }
      ReplaceAbsent(Join(rel, '/'), sep, '/');
    }
  }

  /** A directory file's entry name denotes its own relative path, as a jar entry of that name would. */
  lemma DirEntryNameRoundTrip(rel: Path, sep: char)
    requires rel != []
    requires forall k :: 0 <= k < |rel| ==> sep !in rel[k] && '/' !in rel[k]
    ensures MirrorPath(DirEntryName(rel, sep)) == rel
  {
    DirEntryNameIsSlashJoin(rel, sep);
    SplitJoin(rel, '/');
  }

  /** One jar entry of scanAll. None: the mirror file could not be created, which aborts the build. */
  function RouteJarEntry(s: ScanState, e: JarEntry, notNeed: string -> bool): Option<ScanState> {
    if Skipped(e) then Some(s)
    else
      var p := MirrorPath(e.name);
      if NotNeedEntries(e.name, notNeed) then
        if p in s.mirror.files then Some(s.(keep := s.keep + {p}))
        else match CreateFile(s.mirror, p, e.data)
          case None => None
          case Some(m) => Some(s.(mirror := m, keep := s.keep + {p}))
      else
        Some(s.(mirror := DeleteFile(s.mirror, p), needs := [WorkItem(e.name, e.data)] + s.needs))
  }

  /** The entries of one jar, in order; the first failure ends the scan. */
  function RouteJar(s: ScanState, es: seq<JarEntry>, notNeed: string -> bool): Option<ScanState>
    decreases |es|
  {
    if es == [] then Some(s)
    else match RouteJar(s, es[..|es| - 1], notNeed)
      case None => None
      case Some(s1) => RouteJarEntry(s1, es[|es| - 1], notNeed)
  }

  /** All input jars, one after the other. */
  function RouteJars(s: ScanState, jars: seq<seq<JarEntry>>, notNeed: string -> bool): Option<ScanState>
    decreases |jars|
  {
    if jars == [] then Some(s)
    else match RouteJars(s, jars[..|jars| - 1], notNeed)
      case None => None
      case Some(s1) => RouteJar(s1, jars[|jars| - 1], notNeed)
  }

  /** One file of a directory walk: pass-through files go to the output jar, the rest to the work list. */
  function RouteDirFile(s: ScanState, f: DirFile, notNeed: string -> bool, sep: char): ScanState {
    if Name(f.rel) == "META-INF" then s
    else
      var name := DirEntryName(f.rel, sep);
      if NotNeedEntries(name, notNeed) then s.(jos := s.jos + [OutEntry(name, f.data)])
      else s.(needs := [WorkItem(name, f.data)] + s.needs)
  }

  function RouteDir(s: ScanState, fs: seq<DirFile>, notNeed: string -> bool, sep: char): ScanState
    decreases |fs|
  {
    if fs == [] then s
    else RouteDirFile(RouteDir(s, fs[..|fs| - 1], notNeed, sep), fs[|fs| - 1], notNeed, sep)
  }

  function RouteDirs(s: ScanState, dirs: seq<seq<DirFile>>, notNeed: string -> bool, sep: char): ScanState
    decreases |dirs|
  {
    if dirs == [] then s
    else RouteDir(RouteDirs(s, dirs[..|dirs| - 1], notNeed, sep), dirs[|dirs| - 1], notNeed, sep)
  }

  /** scanAll: every jar, then every directory. */
  function Route(s: ScanState, jars: seq<seq<JarEntry>>, dirs: seq<seq<DirFile>>,
                 notNeed: string -> bool, sep: char): Option<ScanState>
  {
    match RouteJars(s, jars, notNeed)
    case None => None
    case Some(s1) => Some(RouteDirs(s1, dirs, notNeed, sep))
  }

  /**
   * process: one output entry per work item, in work-list order, named after the item.
   * `emit` stands for the modifiers' modify phase followed by serialisation. It is fixed
   * for one build and gives, for each item, the bytes that modify() over the whole work
   * list leaves for it; a class may therefore depend on others through `emit`.
   */
  function Package(items: seq<WorkItem>, emit: WorkItem -> Bytes): (r: seq<OutEntry>)
    decreases |items|
  {
    if items == [] then [] else [OutEntry(items[0].entryName, emit(items[0]))] + Package(items[1..], emit)
  }

  /** What a successful build leaves behind: the mirror directory and the output jar. */
  datatype BuildResult = BuildResult(mirror: Tree, jos: seq<OutEntry>)

  /** transform: scan with an empty keep-set, work list and output jar, prune, package. */
  ghost function Build(mirror: Tree, jars: seq<seq<JarEntry>>, dirs: seq<seq<DirFile>>,
                       notNeed: string -> bool, sep: char, emit: WorkItem -> Bytes): Option<BuildResult>
  {
    match Route(ScanState(mirror, {}, [], []), jars, dirs, notNeed, sep)
    case None => None
    case Some(s) => Some(BuildResult(PruneSpec(s.mirror, s.keep), s.jos + Package(s.needs, emit)))
  }

  lemma {:induction false} RouteJarFailureSticks(s: ScanState, es: seq<JarEntry>, notNeed: string -> bool, k: nat)
    requires k <= |es| && RouteJar(s, es[..k], notNeed).None?
    ensures RouteJar(s, es, notNeed).None?
    decreases |es|
  {
    if k < |es| {
      var init := es[..|es| - 1];
      assert init[..k] == es[..k];
      RouteJarFailureSticks(s, init, notNeed, k);
    } else {
      assert es[..k] == es;
    }
  }

  lemma {:induction false} RouteJarsFailureSticks(s: ScanState, jars: seq<seq<JarEntry>>, notNeed: string -> bool, k: nat)
    requires k <= |jars| && RouteJars(s, jars[..k], notNeed).None?
    ensures RouteJars(s, jars, notNeed).None?
    decreases |jars|
  {
    if k < |jars| {
      var init := jars[..|jars| - 1];
      assert init[..k] == jars[..k];
      RouteJarsFailureSticks(s, init, notNeed, k);
    } else {
      assert jars[..k] == jars;
    }
  }

  /** Routing never breaks the mirror's tree shape. */
  lemma {:induction false} RouteJarWellFormed(s: ScanState, es: seq<JarEntry>, notNeed: string -> bool)
    requires WellFormed(s.mirror) && RouteJar(s, es, notNeed).Some?
    ensures WellFormed(RouteJar(s, es, notNeed).value.mirror)
    decreases |es|
  {
    if es != [] {
      RouteJarWellFormed(s, es[..|es| - 1], notNeed);
    }
  }

  lemma {:induction false} RouteJarsWellFormed(s: ScanState, jars: seq<seq<JarEntry>>, notNeed: string -> bool)
    requires WellFormed(s.mirror) && RouteJars(s, jars, notNeed).Some?
    ensures WellFormed(RouteJars(s, jars, notNeed).value.mirror)
    decreases |jars|
  {
    if jars != [] {
      RouteJarsWellFormed(s, jars[..|jars| - 1], notNeed);
      RouteJarWellFormed(RouteJars(s, jars[..|jars| - 1], notNeed).value, jars[|jars| - 1], notNeed);
    }
  }

  /** Directory inputs never touch the mirror or the keep-set. */
  lemma {:induction false} RouteDirsLeaveMirror(s: ScanState, dirs: seq<seq<DirFile>>, notNeed: string -> bool, sep: char)
    ensures RouteDirs(s, dirs, notNeed, sep).mirror == s.mirror
    ensures RouteDirs(s, dirs, notNeed, sep).keep == s.keep
    decreases |dirs|
  {
    if dirs != [] {
      var s1 := RouteDirs(s, dirs[..|dirs| - 1], notNeed, sep);
      RouteDirsLeaveMirror(s, dirs[..|dirs| - 1], notNeed, sep);
      RouteDirLeavesMirror(s1, dirs[|dirs| - 1], notNeed, sep);
    }
  }

  lemma {:induction false} RouteDirLeavesMirror(s: ScanState, fs: seq<DirFile>, notNeed: string -> bool, sep: char)
    ensures RouteDir(s, fs, notNeed, sep).mirror == s.mirror
    ensures RouteDir(s, fs, notNeed, sep).keep == s.keep
    decreases |fs|
  {
    if fs != [] {
      RouteDirLeavesMirror(s, fs[..|fs| - 1], notNeed, sep);
    }
  }

  lemma RouteWellFormed(s: ScanState, jars: seq<seq<JarEntry>>, dirs: seq<seq<DirFile>>,
                        notNeed: string -> bool, sep: char)
    requires WellFormed(s.mirror) && Route(s, jars, dirs, notNeed, sep).Some?
    ensures WellFormed(Route(s, jars, dirs, notNeed, sep).value.mirror)
  {
    RouteJarsWellFormed(s, jars, notNeed);
    RouteDirsLeaveMirror(RouteJars(s, jars, notNeed).value, dirs, notNeed, sep);
  }

  /** The transform task's mutable state during one build. */
  class Transformer {
    /** The mirror directory notNeedOutput on disk. */
    var mirror: Tree
    /** allNotNeedFileSet. */
    var keep: set<Path>
    /** The LinkedList `needs`; push and pop work at the front. */
    var needs: seq<WorkItem>
    /** The entries written to the JarOutputStream so far. */
    var jos: seq<OutEntry>

    function State(): ScanState
      reads this
    {
      ScanState(mirror, keep, needs, jos)
    }

    constructor (m: Tree)
      ensures mirror == m && keep == {} && needs == [] && jos == []
    {
      mirror, keep, needs, jos := m, {}, [], [];
    }

    /** The body of scanAll for one jar. `ok` is false when writing the mirror failed. */
    method ScanJar(es: seq<JarEntry>, notNeed: string -> bool) returns (ok: bool)
      modifies this
      ensures ok == RouteJar(old(State()), es, notNeed).Some?
      ensures ok ==> State() == RouteJar(old(State()), es, notNeed).value
    {
      ghost var s0 := State();
      var i := 0;
      while i < |es|
        invariant 0 <= i <= |es|
        invariant RouteJar(s0, es[..i], notNeed) == Some(State())
      {
        var e := es[i];
        assert es[..i + 1][..i] == es[..i];
        ghost var before := State();
        assert RouteJar(s0, es[..i + 1], notNeed) == RouteJarEntry(before, e, notNeed);
        if !(IsDirectoryEntry(e) || StartsWith(e.name, "META-INF")) {
          var p := MirrorPath(e.name);
          if NotNeedEntries(e.name, notNeed) {
            if p !in mirror.files {
              var m := CreateFile(mirror, p, e.data);
              if m.None? {
                RouteJarFailureSticks(s0, es, notNeed, i + 1);
                return false;
              }
              mirror := m.value;
            }
            keep := keep + {p};
          } else {
            mirror := DeleteFile(mirror, p);
            needs := [WorkItem(e.name, e.data)] + needs;
          }
        }
        i := i + 1;
      }
      assert es[..i] == es;
      ok := true;
    }

    /** The body of scanAll for one directory, its files in walk order. */
    method ScanDir(fs: seq<DirFile>, notNeed: string -> bool, sep: char)
      modifies this
      ensures State() == RouteDir(old(State()), fs, notNeed, sep)
    {
      ghost var s0 := State();
      var i := 0;
      while i < |fs|
        invariant 0 <= i <= |fs|
        invariant State() == RouteDir(s0, fs[..i], notNeed, sep)
      {
        var f := fs[i];
        assert fs[..i + 1][..i] == fs[..i];
        ghost var before := State();
        assert RouteDir(s0, fs[..i + 1], notNeed, sep) == RouteDirFile(before, f, notNeed, sep);
        if Name(f.rel) != "META-INF" {
          var name := DirEntryName(f.rel, sep);
          if NotNeedEntries(name, notNeed) {
            jos := jos + [OutEntry(name, f.data)];
            assert State() == before.(jos := before.jos + [OutEntry(name, f.data)]);
          } else {
            needs := [WorkItem(name, f.data)] + needs;
            assert State() == before.(needs := [WorkItem(name, f.data)] + before.needs);
          }
        }
        i := i + 1;
      }
      assert fs[..i] == fs;
    }

    /** scanAll, run sequentially: every jar, then every directory. */
    method ScanAll(jars: seq<seq<JarEntry>>, dirs: seq<seq<DirFile>>, notNeed: string -> bool, sep: char)
      returns (ok: bool)
      modifies this
      ensures ok == Route(old(State()), jars, dirs, notNeed, sep).Some?
      ensures ok ==> State() == Route(old(State()), jars, dirs, notNeed, sep).value
    {
      ghost var s0 := State();
      var i := 0;
      while i < |jars|
        invariant 0 <= i <= |jars|
        invariant RouteJars(s0, jars[..i], notNeed) == Some(State())
      {
        assert jars[..i + 1][..i] == jars[..i];
        ok := ScanJar(jars[i], notNeed);
        if !ok {
          RouteJarsFailureSticks(s0, jars, notNeed, i + 1);
          return;
        }
        i := i + 1;
      }
      assert jars[..i] == jars;
      ghost var s1 := State();
      var j := 0;
      while j < |dirs|
        invariant 0 <= j <= |dirs|
        invariant State() == RouteDirs(s1, dirs[..j], notNeed, sep)
      {
        assert dirs[..j + 1][..j] == dirs[..j];
        ScanDir(dirs[j], notNeed, sep);
        j := j + 1;
      }
      assert dirs[..j] == dirs;
      ok := true;
    }

    /**
     * The file system's bottom-up walk of the mirror directory: deeper paths first, so
     * that every directory comes after everything below it.
     */
    method WalkBottomUp() returns (order: seq<Path>)
      ensures PostOrder(order, mirror)
    {
      var pending := Nodes(mirror);
      order := [];
      while pending != {}
        invariant Walked(Nodes(mirror), pending, order)
        decreases |pending|
      {
        LongestExists(pending);
        var p :| p in pending && forall q :: q in pending ==> |q| <= |p|;
        WalkStep(Nodes(mirror), pending, order, p);
        order := order + [p];
        pending := pending - {p};
      }
      LongestFirstIsPostOrder(order, mirror);
    }

    /**
     * cleanNotNeedOutput over a bottom-up walk of the mirror: afterwards the mirror holds
     * exactly the keep-set's files, with their bytes, and the directories above them.
     */
    method CleanNotNeedOutput(order: seq<Path>)
      requires WellFormed(mirror) && PostOrder(order, mirror)
      modifies this
      ensures mirror == PruneSpec(old(mirror), keep) && WellFormed(mirror)
      ensures keep == old(keep) && needs == old(needs) && jos == old(jos)
    {
      ghost var t0 := mirror;
      var i := 0;
      while i < |order|
        invariant 0 <= i <= |order|
        invariant mirror == Prune(t0, keep, order[..i])
        invariant keep == old(keep) && needs == old(needs) && jos == old(jos)
      {
        var p := order[i];
        assert order[..i + 1][..i] == order[..i];
        ghost var before := mirror;
        assert Prune(t0, keep, order[..i + 1]) == PruneStep(before, keep, p);
        if p in mirror.dirs {
          if !HasChild(mirror, p) {
            mirror := mirror.(dirs := mirror.dirs - {p});
          }
        } else if p !in keep {
          mirror := mirror.(files := mirror.files - {p});
        }
        assert mirror == PruneStep(before, keep, p);
        i := i + 1;
      }
      assert order[..i] == order;
      PruneMeetsSpec(t0, keep, order);
      PruneSpecWellFormed(t0, keep);
    }

    /** process: pops every work item and writes one output entry for it. */
    method Process(emit: WorkItem -> Bytes)
      modifies this
      ensures jos == old(jos) + Package(old(needs), emit) && needs == []
      ensures mirror == old(mirror) && keep == old(keep)
    {
      while needs != []
        invariant jos + Package(needs, emit) == old(jos) + Package(old(needs), emit)
        invariant mirror == old(mirror) && keep == old(keep)
        decreases |needs|
      {
        var item := needs[0];
        needs := needs[1..];
        jos := jos + [OutEntry(item.entryName, emit(item))];
      }
    }

    /**
     * transform, run sequentially: a fresh keep-set, work list and output jar; scanAll;
     * cleanNotNeedOutput over a bottom-up walk; then process (the modify phase is part of `emit`).
     */
    method Transform(jars: seq<seq<JarEntry>>, dirs: seq<seq<DirFile>>, notNeed: string -> bool,
                     sep: char, emit: WorkItem -> Bytes) returns (ok: bool)
      requires WellFormed(mirror)
      modifies this
      ensures ok == Build(old(mirror), jars, dirs, notNeed, sep, emit).Some?
      ensures ok ==> mirror == Build(old(mirror), jars, dirs, notNeed, sep, emit).value.mirror
      ensures ok ==> jos == Build(old(mirror), jars, dirs, notNeed, sep, emit).value.jos
    {
      keep, needs, jos := {}, [], [];
      ok := ScanAll(jars, dirs, notNeed, sep);
      if !ok {
        return;
      }
      RouteWellFormed(ScanState(old(mirror), {}, [], []), jars, dirs, notNeed, sep);
      var order := WalkBottomUp();
      CleanNotNeedOutput(order);
      Process(emit);
    }
  }
}
