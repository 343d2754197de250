/**
 * What the routing of the transform task guarantees: every jar entry lands in exactly
 * one place, the mirror is left exactly matching the current build's pass-through
 * entries, and a second build over an unchanged input reproduces the first.
 */
module TransformProperties {
  import opened Wrappers
  import opened Paths
  import opened EntryClassifier
  import opened FileTree
  import opened TransformTask

  predicate PassThrough(e: JarEntry, notNeed: string -> bool) {
    !Skipped(e) && NotNeedEntries(e.name, notNeed)
  }

  predicate NeedsTransform(e: JarEntry, notNeed: string -> bool) {
    !Skipped(e) && !NotNeedEntries(e.name, notNeed)
  }

  /** The entries of several inputs, one input after the other. */
  function Flatten<T>(xss: seq<seq<T>>): seq<T>
    decreases |xss|
  {
    if xss == [] then [] else Flatten(xss[..|xss| - 1]) + xss[|xss| - 1]
  }

  /** The mirror paths of the pass-through entries of `es`: the keep-set a scan builds. */
  ghost function PassPaths(es: seq<JarEntry>, notNeed: string -> bool): set<Path> {
    set e | e in es && PassThrough(e, notNeed) :: MirrorPath(e.name)
  }

  /** The mirror paths of the entries of `es` that are transformed. */
  ghost function TransformPaths(es: seq<JarEntry>, notNeed: string -> bool): set<Path> {
    set e | e in es && NeedsTransform(e, notNeed) :: MirrorPath(e.name)
  }

  /** The work items for the transformed entries of `es`, last entry first (LinkedList.push). */
  function Queued(es: seq<JarEntry>, notNeed: string -> bool): seq<WorkItem>
    decreases |es|
  {
    if es == [] then []
    else
      var e := es[|es| - 1];
      (if NeedsTransform(e, notNeed) then [WorkItem(e.name, e.data)] else []) + Queued(es[..|es| - 1], notNeed)
  }

  // The sequence facts below are ones Dafny knows unaided; the proofs call them by name
  // only so that the solver need not search for them in large contexts.

  /** Every element of `es` is in its front part or is its last element. */
  lemma InSnoc<T>(es: seq<T>)
    requires es != []
    ensures forall x :: x in es <==> x in es[..|es| - 1] || x == es[|es| - 1]
  {
    assert es == es[..|es| - 1] + [es[|es| - 1]];
  }

  lemma AppendAssoc<T>(a: seq<T>, b: seq<T>, c: seq<T>)
    ensures (a + b) + c == a + (b + c)
  {
  }

  lemma AppendEmpty<T>(a: seq<T>)
    ensures a + [] == a && [] + a == a
  {
  }

  /** The front part and the last element of a concatenation with a non-empty right side. */
  lemma SnocOfAppend<T>(a: seq<T>, b: seq<T>)
    requires b != []
    ensures (a + b)[..|a + b| - 1] == a + b[..|b| - 1]
    ensures (a + b)[|a + b| - 1] == b[|b| - 1]
  {
  }

  lemma IndexAppendRight<T>(a: seq<T>, b: seq<T>, k: nat)
    requires k < |b|
    ensures (a + b)[|a| + k] == b[k]
  {
  }

  lemma PassPathsSnoc(es: seq<JarEntry>, notNeed: string -> bool)
    requires es != []
    ensures var e := es[|es| - 1];
      PassPaths(es, notNeed) == PassPaths(es[..|es| - 1], notNeed) + (if PassThrough(e, notNeed) then {MirrorPath(e.name)} else {})
  {
    InSnoc(es);
  }

  lemma TransformPathsSnoc(es: seq<JarEntry>, notNeed: string -> bool)
    requires es != []
    ensures var e := es[|es| - 1];
      TransformPaths(es, notNeed) == TransformPaths(es[..|es| - 1], notNeed) + (if NeedsTransform(e, notNeed) then {MirrorPath(e.name)} else {})
  {
    InSnoc(es);
  }

  lemma {:induction false} RouteJarAppend(s: ScanState, a: seq<JarEntry>, b: seq<JarEntry>, notNeed: string -> bool)
    ensures RouteJar(s, a + b, notNeed) ==
      match RouteJar(s, a, notNeed)
      case None => None
      case Some(s1) => RouteJar(s1, b, notNeed)
    decreases |b|
  {
    if b == [] {
      AppendEmpty(a);
    } else {
      SnocOfAppend(a, b);
      RouteJarAppend(s, a, b[..|b| - 1], notNeed);
    }
  }

  /** Scanning the jars one by one is scanning all their entries in one sequence. */
  lemma {:induction false} RouteJarsFlatten(s: ScanState, jars: seq<seq<JarEntry>>, notNeed: string -> bool)
    ensures RouteJars(s, jars, notNeed) == RouteJar(s, Flatten(jars), notNeed)
    decreases |jars|
  {
    if jars != [] {
      var init := jars[..|jars| - 1];
      RouteJarsFlatten(s, init, notNeed);
      RouteJarAppend(s, Flatten(init), jars[|jars| - 1], notNeed);
    }
  }

  /** One jar entry's effect on the keep-set, the work list and the output jar. */
  lemma RouteJarEntryEffect(s: ScanState, e: JarEntry, notNeed: string -> bool)
    requires RouteJarEntry(s, e, notNeed).Some?
    ensures RouteJarEntry(s, e, notNeed).value.keep == s.keep + (if PassThrough(e, notNeed) then {MirrorPath(e.name)} else {})
    ensures RouteJarEntry(s, e, notNeed).value.needs == (if NeedsTransform(e, notNeed) then [WorkItem(e.name, e.data)] else []) + s.needs
    ensures RouteJarEntry(s, e, notNeed).value.jos == s.jos
  {
  }

  /**
   * A successful jar scan adds exactly the pass-through entries' mirror paths to the
   * keep-set, pushes exactly the transformed entries onto the work list, and writes
   * nothing to the output jar.
   */
  lemma RouteJarEffect(s: ScanState, es: seq<JarEntry>, notNeed: string -> bool)
    requires RouteJar(s, es, notNeed).Some?
    ensures RouteJar(s, es, notNeed).value.keep == s.keep + PassPaths(es, notNeed)
    ensures RouteJar(s, es, notNeed).value.needs == Queued(es, notNeed) + s.needs
    ensures RouteJar(s, es, notNeed).value.jos == s.jos
  {
    RouteJarKeep(s, es, notNeed);
    RouteJarQueue(s, es, notNeed);
  }

  lemma {:induction false} RouteJarKeep(s: ScanState, es: seq<JarEntry>, notNeed: string -> bool)
    requires RouteJar(s, es, notNeed).Some?
    ensures RouteJar(s, es, notNeed).value.keep == s.keep + PassPaths(es, notNeed)
    decreases |es|
  {
    if es != [] {
      var init := es[..|es| - 1];
      var e := es[|es| - 1];
      RouteJarKeep(s, init, notNeed);
      PassPathsSnoc(es, notNeed);
      var s1 := RouteJar(s, init, notNeed).value;
      assert RouteJar(s, es, notNeed) == RouteJarEntry(s1, e, notNeed);
      RouteJarEntryEffect(s1, e, notNeed);
    }
  }

  lemma {:induction false} RouteJarQueue(s: ScanState, es: seq<JarEntry>, notNeed: string -> bool)
    requires RouteJar(s, es, notNeed).Some?
    ensures RouteJar(s, es, notNeed).value.needs == Queued(es, notNeed) + s.needs
    ensures RouteJar(s, es, notNeed).value.jos == s.jos
    decreases |es|
  {
    if es != [] {
      var init := es[..|es| - 1];
      var e := es[|es| - 1];
      RouteJarQueue(s, init, notNeed);
      var s1 := RouteJar(s, init, notNeed).value;
      assert RouteJar(s, es, notNeed) == RouteJarEntry(s1, e, notNeed);
      RouteJarEntryEffect(s1, e, notNeed);
      var q := if NeedsTransform(e, notNeed) then [WorkItem(e.name, e.data)] else [];
      assert Queued(es, notNeed) == q + Queued(init, notNeed);
      AppendAssoc(q, Queued(init, notNeed), s.needs);
    }
  }

  /** The work list holds one item for every transformed entry and nothing else. */
  lemma {:induction false} QueuedMembers(es: seq<JarEntry>, notNeed: string -> bool, w: WorkItem)
    ensures w in Queued(es, notNeed) <==> exists e :: e in es && NeedsTransform(e, notNeed) && w == WorkItem(e.name, e.data)
    decreases |es|
  {
    if es != [] {
      InSnoc(es);
      QueuedMembers(es[..|es| - 1], notNeed, w);
    }
  }

  /**
   * Completeness of routing: an entry that is not skipped is either passed through (its
   * mirror path is in the keep-set) or transformed (a work item with its name is queued,
   * and its mirror path is among the paths scrubbed from the mirror), never both.
   */
  lemma JarEntryRoutedOnce(es: seq<JarEntry>, notNeed: string -> bool, e: JarEntry)
    requires e in es && !Skipped(e)
    ensures MirrorPath(e.name) in PassPaths(es, notNeed) <==> NotNeedEntries(e.name, notNeed)
    ensures MirrorPath(e.name) in TransformPaths(es, notNeed) <==> !NotNeedEntries(e.name, notNeed)
    ensures (exists w :: w in Queued(es, notNeed) && w.entryName == e.name) <==> !NotNeedEntries(e.name, notNeed)
  {
    if MirrorPath(e.name) in PassPaths(es, notNeed) {
      var e' :| e' in es && PassThrough(e', notNeed) && MirrorPath(e'.name) == MirrorPath(e.name);
      MirrorPathInjective(e'.name, e.name);
    }
    if MirrorPath(e.name) in TransformPaths(es, notNeed) {
      var e' :| e' in es && NeedsTransform(e', notNeed) && MirrorPath(e'.name) == MirrorPath(e.name);
      MirrorPathInjective(e'.name, e.name);
    }
    if exists w :: w in Queued(es, notNeed) && w.entryName == e.name {
      var w :| w in Queued(es, notNeed) && w.entryName == e.name;
      QueuedMembers(es, notNeed, w);
    }
    if !NotNeedEntries(e.name, notNeed) {
      QueuedMembers(es, notNeed, WorkItem(e.name, e.data));
    }
  }

  /**
   * Directory entries and entries under META-INF end up neither in the keep-set nor in
   * the work list, whatever else the jar holds.
   */
  lemma SkippedEntryNowhere(es: seq<JarEntry>, notNeed: string -> bool, e: JarEntry)
    requires Skipped(e)
    ensures MirrorPath(e.name) !in PassPaths(es, notNeed)
    ensures forall w :: w in Queued(es, notNeed) ==> w.entryName != e.name
  {
    forall e' | e' in es && PassThrough(e', notNeed) ensures MirrorPath(e'.name) != MirrorPath(e.name) {
      assert e'.name != e.name;
    }
    forall w | w in Queued(es, notNeed) ensures w.entryName != e.name {
      QueuedMembers(es, notNeed, w);
    }
  }

  /** The mirror agrees with the classification of every entry of `es`. */
  ghost predicate Settled(m: Tree, es: seq<JarEntry>, notNeed: string -> bool) {
    forall e :: e in es ==>
      && (PassThrough(e, notNeed) ==> MirrorPath(e.name) in m.files)
      && (NeedsTransform(e, notNeed) ==> MirrorPath(e.name) !in m.files)
  }

  /** Entry `i` of `es` is the first pass-through entry whose mirror path is `p`. */
  ghost predicate FirstPassAt(es: seq<JarEntry>, notNeed: string -> bool, p: Path, i: int) {
    && 0 <= i < |es| && PassThrough(es[i], notNeed) && MirrorPath(es[i].name) == p
    && forall j :: 0 <= j < i ==> !(PassThrough(es[j], notNeed) && MirrorPath(es[j].name) == p)
  }

  lemma FirstPassAtSnoc(es: seq<JarEntry>, notNeed: string -> bool, p: Path, i: int)
    requires es != [] && FirstPassAt(es[..|es| - 1], notNeed, p, i)
    ensures FirstPassAt(es, notNeed, p, i)
  {
    var init := es[..|es| - 1];
    forall j | 0 <= j <= i ensures init[j] == es[j] { }
  }

  /**
   * How a jar scan changes the mirror from `m0` to `m`: it settles every entry, keeps the
   * bytes of every file it leaves in place, deletes only transformed entries' paths, and
   * creates only pass-through entries' paths, each holding the bytes of the first
   * pass-through entry with that path (later ones find the file already there).
   */
  ghost predicate MirrorFacts(m0: Tree, m: Tree, es: seq<JarEntry>, notNeed: string -> bool) {
    && Settled(m, es, notNeed)
    && (forall p :: p in m0.files && p in m.files ==> m.files[p] == m0.files[p])
    && (forall p :: p in m0.files && p !in m.files ==> p in TransformPaths(es, notNeed))
    && (forall p :: p in m.files && p !in m0.files ==> p in PassPaths(es, notNeed))
    && (forall p :: p in m.files && p !in m0.files ==>
          exists i :: FirstPassAt(es, notNeed, p, i) && m.files[p] == es[i].data)
  }

  lemma MirrorFactsCreate(m0: Tree, m1: Tree, es: seq<JarEntry>, notNeed: string -> bool, m: Tree)
    requires es != [] && PassThrough(es[|es| - 1], notNeed)
    requires MirrorFacts(m0, m1, es[..|es| - 1], notNeed)
    requires var p := MirrorPath(es[|es| - 1].name); p !in m1.files && m.files == m1.files[p := es[|es| - 1].data]
    ensures MirrorFacts(m0, m, es, notNeed)
  {
    var init := es[..|es| - 1];
    var last := es[|es| - 1];
    var p := MirrorPath(last.name);
    InSnoc(es);
    PassPathsSnoc(es, notNeed);
    TransformPathsSnoc(es, notNeed);
    forall e | e in init && NeedsTransform(e, notNeed) ensures MirrorPath(e.name) != p {
      if MirrorPath(e.name) == p { MirrorPathInjective(e.name, last.name); }
    }
    forall j | 0 <= j < |es| - 1 ensures !(PassThrough(es[j], notNeed) && MirrorPath(es[j].name) == p) {
      assert es[j] == init[j] && init[j] in init;
    }
    assert FirstPassAt(es, notNeed, p, |es| - 1);
    forall q | q in m.files && q !in m0.files && q != p
      ensures exists i :: FirstPassAt(es, notNeed, q, i) && m.files[q] == es[i].data
    {
      var i :| FirstPassAt(init, notNeed, q, i) && m1.files[q] == init[i].data;
      FirstPassAtSnoc(es, notNeed, q, i);
    }
  }

  lemma MirrorFactsDelete(m0: Tree, m1: Tree, es: seq<JarEntry>, notNeed: string -> bool, m: Tree)
    requires es != [] && NeedsTransform(es[|es| - 1], notNeed)
    requires MirrorFacts(m0, m1, es[..|es| - 1], notNeed)
    requires m.files == m1.files - {MirrorPath(es[|es| - 1].name)}
    ensures MirrorFacts(m0, m, es, notNeed)
  {
    var init := es[..|es| - 1];
    var last := es[|es| - 1];
    var p := MirrorPath(last.name);
    InSnoc(es);
    PassPathsSnoc(es, notNeed);
    TransformPathsSnoc(es, notNeed);
    forall e | e in init && PassThrough(e, notNeed) ensures MirrorPath(e.name) != p {
      if MirrorPath(e.name) == p { MirrorPathInjective(e.name, last.name); }
    }
    forall q | q in m.files && q !in m0.files
      ensures exists i :: FirstPassAt(es, notNeed, q, i) && m.files[q] == es[i].data
    {
      var i :| FirstPassAt(init, notNeed, q, i) && m1.files[q] == init[i].data;
      FirstPassAtSnoc(es, notNeed, q, i);
    }
  }

  lemma MirrorFactsSame(m0: Tree, m1: Tree, es: seq<JarEntry>, notNeed: string -> bool)
    requires es != [] && !NeedsTransform(es[|es| - 1], notNeed)
    requires PassThrough(es[|es| - 1], notNeed) ==> MirrorPath(es[|es| - 1].name) in m1.files
    requires MirrorFacts(m0, m1, es[..|es| - 1], notNeed)
    ensures MirrorFacts(m0, m1, es, notNeed)
  {
    var init := es[..|es| - 1];
    InSnoc(es);
    PassPathsSnoc(es, notNeed);
    TransformPathsSnoc(es, notNeed);
    forall q | q in m1.files && q !in m0.files
      ensures exists i :: FirstPassAt(es, notNeed, q, i) && m1.files[q] == es[i].data
    {
      var i :| FirstPassAt(init, notNeed, q, i) && m1.files[q] == init[i].data;
      FirstPassAtSnoc(es, notNeed, q, i);
    }
  }

  lemma {:induction false} RouteJarMirror(s: ScanState, es: seq<JarEntry>, notNeed: string -> bool)
    requires RouteJar(s, es, notNeed).Some?
    ensures MirrorFacts(s.mirror, RouteJar(s, es, notNeed).value.mirror, es, notNeed)
    decreases |es|
  {
    if es != [] {
      var init := es[..|es| - 1];
      var e := es[|es| - 1];
      RouteJarMirror(s, init, notNeed);
      var s1 := RouteJar(s, init, notNeed).value;
      var r := RouteJar(s, es, notNeed).value;
      assert RouteJarEntry(s1, e, notNeed) == Some(r);
      var p := MirrorPath(e.name);
      if NeedsTransform(e, notNeed) {
        MirrorFactsDelete(s.mirror, s1.mirror, es, notNeed, r.mirror);
      } else if PassThrough(e, notNeed) && p !in s1.mirror.files {
        MirrorFactsCreate(s.mirror, s1.mirror, es, notNeed, r.mirror);
      } else {
        assert r.mirror == s1.mirror;
        MirrorFactsSame(s.mirror, s1.mirror, es, notNeed);
      }
    }
  }

  /** One entry over a mirror that already agrees with it changes neither the mirror nor the output. */
  lemma RouteJarEntryOnSettled(s: ScanState, e: JarEntry, notNeed: string -> bool)
    requires PassThrough(e, notNeed) ==> MirrorPath(e.name) in s.mirror.files
    requires NeedsTransform(e, notNeed) ==> MirrorPath(e.name) !in s.mirror.files
    ensures RouteJarEntry(s, e, notNeed) == Some(ScanState(s.mirror,
      s.keep + (if PassThrough(e, notNeed) then {MirrorPath(e.name)} else {}),
      (if NeedsTransform(e, notNeed) then [WorkItem(e.name, e.data)] else []) + s.needs, s.jos))
  {
    var p := MirrorPath(e.name);
    if Skipped(e) {
      assert s.keep + {} == s.keep;
      assert [] + s.needs == s.needs;
    } else if NotNeedEntries(e.name, notNeed) {
      assert [] + s.needs == s.needs;
    } else {
      assert s.mirror.files - {p} == s.mirror.files;
      assert DeleteFile(s.mirror, p) == s.mirror;
      assert s.keep + {} == s.keep;
    }
  }

  /** Over a mirror that already agrees with every entry, a jar scan cannot fail and creates and deletes nothing. */
  lemma {:induction false} RouteJarKeepsSettledMirror(s: ScanState, es: seq<JarEntry>, notNeed: string -> bool)
    requires Settled(s.mirror, es, notNeed)
    ensures RouteJar(s, es, notNeed).Some? && RouteJar(s, es, notNeed).value.mirror == s.mirror
    decreases |es|
  {
    if es != [] {
      var init := es[..|es| - 1];
      var e := es[|es| - 1];
      InSnoc(es);
      RouteJarKeepsSettledMirror(s, init, notNeed);
      var s1 := RouteJar(s, init, notNeed).value;
      assert RouteJar(s, es, notNeed) == RouteJarEntry(s1, e, notNeed);
      assert e in es;
      RouteJarEntryOnSettled(s1, e, notNeed);
    }
  }

  /** Over a mirror that already agrees with every entry, a jar scan only fills the keep-set and the work list. */
  lemma RouteJarOnSettled(s: ScanState, es: seq<JarEntry>, notNeed: string -> bool)
    requires Settled(s.mirror, es, notNeed)
    ensures RouteJar(s, es, notNeed) == Some(ScanState(s.mirror, s.keep + PassPaths(es, notNeed), Queued(es, notNeed) + s.needs, s.jos))
  {
    RouteJarKeepsSettledMirror(s, es, notNeed);
    RouteJarEffect(s, es, notNeed);
  }

  /**
   * Mirror materialisation is idempotent: scanning the same entries again over the mirror
   * a scan left produces the same mirror, keep-set, work list and output.
   */
  lemma RouteJarIdempotent(s: ScanState, es: seq<JarEntry>, notNeed: string -> bool)
    requires RouteJar(s, es, notNeed).Some?
    ensures RouteJar(s.(mirror := RouteJar(s, es, notNeed).value.mirror), es, notNeed) == RouteJar(s, es, notNeed)
  {
    RouteJarMirror(s, es, notNeed);
    RouteJarEffect(s, es, notNeed);
    RouteJarOnSettled(s.(mirror := RouteJar(s, es, notNeed).value.mirror), es, notNeed);
  }

  /** A directory file the walk considers: one not itself named META-INF. */
  predicate DirRouted(f: DirFile) {
    Name(f.rel) != "META-INF"
  }

  /** The output-jar entry a directory file contributes: one if it is pass-through, none otherwise. */
  function DirFilePass(f: DirFile, notNeed: string -> bool, sep: char): seq<OutEntry> {
    var name := DirEntryName(f.rel, sep);
    if DirRouted(f) && NotNeedEntries(name, notNeed) then [OutEntry(name, f.data)] else []
  }

  /** The work item a directory file contributes: one if it needs transforming, none otherwise. */
  function DirFileQueued(f: DirFile, notNeed: string -> bool, sep: char): seq<WorkItem> {
    var name := DirEntryName(f.rel, sep);
    if DirRouted(f) && !NotNeedEntries(name, notNeed) then [WorkItem(name, f.data)] else []
  }

  /** The output-jar entries for the pass-through files of `fs`, in walk order. */
  function DirPassEntries(fs: seq<DirFile>, notNeed: string -> bool, sep: char): seq<OutEntry>
    decreases |fs|
  {
    if fs == [] then []
    else DirPassEntries(fs[..|fs| - 1], notNeed, sep) + DirFilePass(fs[|fs| - 1], notNeed, sep)
  }

  /** The work items for the transformed files of `fs`, last file first. */
  function DirQueued(fs: seq<DirFile>, notNeed: string -> bool, sep: char): seq<WorkItem>
    decreases |fs|
  {
    if fs == [] then []
    else DirFileQueued(fs[|fs| - 1], notNeed, sep) + DirQueued(fs[..|fs| - 1], notNeed, sep)
  }

  /** One file of the walk appends its output entry, if any, and pushes its work item, if any. */
  lemma RouteDirFileEffect(s: ScanState, f: DirFile, notNeed: string -> bool, sep: char)
    ensures RouteDirFile(s, f, notNeed, sep) ==
      s.(needs := DirFileQueued(f, notNeed, sep) + s.needs, jos := s.jos + DirFilePass(f, notNeed, sep))
  {
    AppendEmpty(s.jos);
    AppendEmpty(s.needs);
  }

  /** The walk appends the pass-through entries to the output jar, in walk order. */
  lemma {:induction false} RouteDirJos(s: ScanState, fs: seq<DirFile>, notNeed: string -> bool, sep: char)
    ensures RouteDir(s, fs, notNeed, sep).jos == s.jos + DirPassEntries(fs, notNeed, sep)
    decreases |fs|
  {
    if fs == [] {
      AppendEmpty(s.jos);
    } else {
      var init, f := fs[..|fs| - 1], fs[|fs| - 1];
      RouteDirJos(s, init, notNeed, sep);
      var mid := RouteDir(s, init, notNeed, sep);
      RouteDirFileEffect(mid, f, notNeed, sep);
      AppendAssoc(s.jos, DirPassEntries(init, notNeed, sep), DirFilePass(f, notNeed, sep));
    }
  }

  /** The walk pushes the transformed files onto the front of the work list. */
  lemma {:induction false} RouteDirNeeds(s: ScanState, fs: seq<DirFile>, notNeed: string -> bool, sep: char)
    ensures RouteDir(s, fs, notNeed, sep).needs == DirQueued(fs, notNeed, sep) + s.needs
    decreases |fs|
  {
    if fs == [] {
      AppendEmpty(s.needs);
    } else {
      var init, f := fs[..|fs| - 1], fs[|fs| - 1];
      RouteDirNeeds(s, init, notNeed, sep);
      var mid := RouteDir(s, init, notNeed, sep);
      RouteDirFileEffect(mid, f, notNeed, sep);
      AppendAssoc(DirFileQueued(f, notNeed, sep), DirQueued(init, notNeed, sep), s.needs);
    }
  }

  /**
   * A directory scan appends exactly the pass-through files to the output jar, in walk
   * order, pushes exactly the others onto the work list, and leaves the mirror and the
   * keep-set alone.
   */
  lemma RouteDirEffect(s: ScanState, fs: seq<DirFile>, notNeed: string -> bool, sep: char)
    ensures RouteDir(s, fs, notNeed, sep) ==
      s.(needs := DirQueued(fs, notNeed, sep) + s.needs, jos := s.jos + DirPassEntries(fs, notNeed, sep))
  {
    RouteDirLeavesMirror(s, fs, notNeed, sep);
    RouteDirJos(s, fs, notNeed, sep);
    RouteDirNeeds(s, fs, notNeed, sep);
  }

  lemma {:induction false} DirPassEntriesAppend(a: seq<DirFile>, b: seq<DirFile>, notNeed: string -> bool, sep: char)
    ensures DirPassEntries(a + b, notNeed, sep) == DirPassEntries(a, notNeed, sep) + DirPassEntries(b, notNeed, sep)
    decreases |b|
  {
    if b == [] {
      AppendEmpty(a);
      AppendEmpty(DirPassEntries(a, notNeed, sep));
    } else {
      var init, f := b[..|b| - 1], b[|b| - 1];
      SnocOfAppend(a, b);
      DirPassEntriesAppend(a, init, notNeed, sep);
      AppendAssoc(DirPassEntries(a, notNeed, sep), DirPassEntries(init, notNeed, sep), DirFilePass(f, notNeed, sep));
    }
  }

  lemma {:induction false} DirQueuedAppend(a: seq<DirFile>, b: seq<DirFile>, notNeed: string -> bool, sep: char)
    ensures DirQueued(a + b, notNeed, sep) == DirQueued(b, notNeed, sep) + DirQueued(a, notNeed, sep)
    decreases |b|
  {
    if b == [] {
      AppendEmpty(a);
      AppendEmpty(DirQueued(a, notNeed, sep));
    } else {
      var init, f := b[..|b| - 1], b[|b| - 1];
      SnocOfAppend(a, b);
      DirQueuedAppend(a, init, notNeed, sep);
      AppendAssoc(DirFileQueued(f, notNeed, sep), DirQueued(init, notNeed, sep), DirQueued(a, notNeed, sep));
    }
  }

  /** Walking two runs of files one after the other is walking their concatenation. */
  lemma RouteDirAppend(s: ScanState, a: seq<DirFile>, b: seq<DirFile>, notNeed: string -> bool, sep: char)
    ensures RouteDir(s, a + b, notNeed, sep) == RouteDir(RouteDir(s, a, notNeed, sep), b, notNeed, sep)
  {
    var sa := RouteDir(s, a, notNeed, sep);
    RouteDirEffect(s, a + b, notNeed, sep);
    RouteDirEffect(s, a, notNeed, sep);
    RouteDirEffect(sa, b, notNeed, sep);
    DirPassEntriesAppend(a, b, notNeed, sep);
    DirQueuedAppend(a, b, notNeed, sep);
    var pa, pb := DirPassEntries(a, notNeed, sep), DirPassEntries(b, notNeed, sep);
    var qa, qb := DirQueued(a, notNeed, sep), DirQueued(b, notNeed, sep);
    AppendAssoc(s.jos, pa, pb);
    AppendAssoc(qb, qa, s.needs);
    assert sa == ScanState(s.mirror, s.keep, qa + s.needs, s.jos + pa);
  }

  lemma {:induction false} RouteDirsFlatten(s: ScanState, dirs: seq<seq<DirFile>>, notNeed: string -> bool, sep: char)
    ensures RouteDirs(s, dirs, notNeed, sep) == RouteDir(s, Flatten(dirs), notNeed, sep)
    decreases |dirs|
  {
    if dirs != [] {
      var init := dirs[..|dirs| - 1];
      RouteDirsFlatten(s, init, notNeed, sep);
      RouteDirAppend(s, Flatten(init), dirs[|dirs| - 1], notNeed, sep);
    }
  }

  /** The output jar receives one entry, under its normalised name, for every pass-through directory file, and nothing else. */
  lemma {:induction false} DirPassMembers(fs: seq<DirFile>, notNeed: string -> bool, sep: char, o: OutEntry)
    ensures o in DirPassEntries(fs, notNeed, sep) <==>
      exists f :: f in fs && DirRouted(f) && NotNeedEntries(DirEntryName(f.rel, sep), notNeed)
                  && o == OutEntry(DirEntryName(f.rel, sep), f.data)
    decreases |fs|
  {
    if fs != [] {
      InSnoc(fs);
      DirPassMembers(fs[..|fs| - 1], notNeed, sep, o);
    }
  }

  /** The work list receives one item for every directory file that is transformed, and nothing else. */
  lemma {:induction false} DirQueuedMembers(fs: seq<DirFile>, notNeed: string -> bool, sep: char, w: WorkItem)
    ensures w in DirQueued(fs, notNeed, sep) <==>
      exists f :: f in fs && DirRouted(f) && !NotNeedEntries(DirEntryName(f.rel, sep), notNeed)
                  && w == WorkItem(DirEntryName(f.rel, sep), f.data)
    decreases |fs|
  {
    if fs != [] {
      InSnoc(fs);
      DirQueuedMembers(fs[..|fs| - 1], notNeed, sep, w);
    }
  }

  /**
   * The walk's filter drops only files whose own name is META-INF: a file inside a
   * META-INF directory is routed like any other, and, not being a class, goes to the
   * output jar.
   */
  lemma MetaInfDirectoryContentsRouted(s: ScanState, data: Bytes, notNeed: string -> bool)
    ensures RouteDirFile(s, DirFile(["META-INF", "MANIFEST.MF"], data), notNeed, '/')
      == s.(jos := s.jos + [OutEntry("META-INF/MANIFEST.MF", data)])
  {
    var rel: Path := ["META-INF", "MANIFEST.MF"];
    assert Join(rel, '/') == "META-INF/MANIFEST.MF" by {
      assert rel[1..] == ["MANIFEST.MF"];
    }
    assert DirEntryName(rel, '/') == "META-INF/MANIFEST.MF";
    assert !EndsWith("META-INF/MANIFEST.MF", ClassSuffix);
  }

  /** process writes one entry per work item, in order, named after the item. */
  lemma {:induction false} PackageEntries(items: seq<WorkItem>, emit: WorkItem -> Bytes)
    ensures |Package(items, emit)| == |items|
    ensures forall i :: 0 <= i < |items| ==> Package(items, emit)[i] == OutEntry(items[i].entryName, emit(items[i]))
    decreases |items|
  {
    if items != [] {
      PackageEntries(items[1..], emit);
      forall i | 0 <= i < |items| ensures Package(items, emit)[i] == OutEntry(items[i].entryName, emit(items[i])) {
        if i > 0 {
          assert Package(items, emit)[i] == Package(items[1..], emit)[i - 1];
        }
      }
    }
  }

  /** The scan of a build, in terms of the flattened inputs. */
  lemma BuildScan(m0: Tree, jars: seq<seq<JarEntry>>, dirs: seq<seq<DirFile>>, notNeed: string -> bool, sep: char)
    requires Route(ScanState(m0, {}, [], []), jars, dirs, notNeed, sep).Some?
    ensures var fj, fd := Flatten(jars), Flatten(dirs);
      && RouteJar(ScanState(m0, {}, [], []), fj, notNeed).Some?
      && Route(ScanState(m0, {}, [], []), jars, dirs, notNeed, sep).value
         == ScanState(RouteJar(ScanState(m0, {}, [], []), fj, notNeed).value.mirror, PassPaths(fj, notNeed),
                      DirQueued(fd, notNeed, sep) + Queued(fj, notNeed), DirPassEntries(fd, notNeed, sep))
  {
    var s0 := ScanState(m0, {}, [], []);
    var fj, fd := Flatten(jars), Flatten(dirs);
    RouteJarsFlatten(s0, jars, notNeed);
    var r := RouteJar(s0, fj, notNeed).value;
    RouteJarEffect(s0, fj, notNeed);
    assert r.keep == PassPaths(fj, notNeed);
    assert r.needs == Queued(fj, notNeed);
    RouteDirsFlatten(r, dirs, notNeed, sep);
    RouteDirEffect(r, fd, notNeed, sep);
  }

  /**
   * After a successful build the mirror holds exactly the pass-through jar entries' files,
   * nothing more and nothing less; a file that was already there keeps its bytes, and a
   * new file holds the bytes of the first pass-through entry with its path.
   */
  lemma BuildMirrorExact(m0: Tree, jars: seq<seq<JarEntry>>, dirs: seq<seq<DirFile>>,
                         notNeed: string -> bool, sep: char, emit: WorkItem -> Bytes)
    requires Build(m0, jars, dirs, notNeed, sep, emit).Some?
    ensures var b := Build(m0, jars, dirs, notNeed, sep, emit).value;
      && b.mirror.files.Keys == PassPaths(Flatten(jars), notNeed)
      && (forall p :: p in m0.files && p in b.mirror.files ==> b.mirror.files[p] == m0.files[p])
      && (forall p :: p in b.mirror.files && p !in m0.files ==>
            exists i :: FirstPassAt(Flatten(jars), notNeed, p, i) && b.mirror.files[p] == Flatten(jars)[i].data)
  {
    var s0 := ScanState(m0, {}, [], []);
    var fj := Flatten(jars);
    BuildScan(m0, jars, dirs, notNeed, sep);
    var r := RouteJar(s0, fj, notNeed).value;
    RouteJarMirror(s0, fj, notNeed);
    var b := Build(m0, jars, dirs, notNeed, sep, emit).value;
    assert b.mirror == PruneSpec(r.mirror, PassPaths(fj, notNeed));
    forall p | p in PassPaths(fj, notNeed) ensures p in r.mirror.files {
      var e :| e in fj && PassThrough(e, notNeed) && MirrorPath(e.name) == p;
    }
  }

  /**
   * A file a build adds to the mirror is a byte-for-byte copy of the first pass-through
   * jar entry with its path.
   */
  lemma BuildCopiesFirstEntry(m0: Tree, jars: seq<seq<JarEntry>>, dirs: seq<seq<DirFile>>,
                              notNeed: string -> bool, sep: char, emit: WorkItem -> Bytes, i: nat)
    requires Build(m0, jars, dirs, notNeed, sep, emit).Some?
    requires i < |Flatten(jars)| && FirstPassAt(Flatten(jars), notNeed, MirrorPath(Flatten(jars)[i].name), i)
    requires MirrorPath(Flatten(jars)[i].name) !in m0.files
    ensures var b := Build(m0, jars, dirs, notNeed, sep, emit).value;
      MirrorPath(Flatten(jars)[i].name) in b.mirror.files
      && b.mirror.files[MirrorPath(Flatten(jars)[i].name)] == Flatten(jars)[i].data
  {
    var fj := Flatten(jars);
    var p := MirrorPath(fj[i].name);
    var b := Build(m0, jars, dirs, notNeed, sep, emit).value;
    BuildMirrorExact(m0, jars, dirs, notNeed, sep, emit);
    assert fj[i] in fj;
    assert p in b.mirror.files;
    var i' :| FirstPassAt(fj, notNeed, p, i') && b.mirror.files[p] == fj[i'].data;
    assert i' == i;
  }

  /** A successful build writes the directories' pass-through files, then one entry per queued class. */
  lemma BuildOutput(m0: Tree, jars: seq<seq<JarEntry>>, dirs: seq<seq<DirFile>>,
                    notNeed: string -> bool, sep: char, emit: WorkItem -> Bytes)
    requires Build(m0, jars, dirs, notNeed, sep, emit).Some?
    ensures var fj, fd := Flatten(jars), Flatten(dirs);
      Build(m0, jars, dirs, notNeed, sep, emit).value.jos
        == DirPassEntries(fd, notNeed, sep) + Package(DirQueued(fd, notNeed, sep) + Queued(fj, notNeed), emit)
  {
    BuildScan(m0, jars, dirs, notNeed, sep);
  }

  /**
   * Completeness of a build: every jar entry that is not skipped either has its file in
   * the mirror (pass-through) or has an output entry under its own name and no mirror
   * file (transformed).
   */
  lemma BuildPlacesJarEntry(m0: Tree, jars: seq<seq<JarEntry>>, dirs: seq<seq<DirFile>>,
                            notNeed: string -> bool, sep: char, emit: WorkItem -> Bytes, e: JarEntry)
    requires Build(m0, jars, dirs, notNeed, sep, emit).Some?
    requires e in Flatten(jars) && !Skipped(e)
    ensures var b := Build(m0, jars, dirs, notNeed, sep, emit).value;
      && (MirrorPath(e.name) in b.mirror.files <==> NotNeedEntries(e.name, notNeed))
      && (!NotNeedEntries(e.name, notNeed) ==> exists i :: 0 <= i < |b.jos| && b.jos[i].name == e.name)
  {
    var fj, fd := Flatten(jars), Flatten(dirs);
    var b := Build(m0, jars, dirs, notNeed, sep, emit).value;
    BuildMirrorExact(m0, jars, dirs, notNeed, sep, emit);
    JarEntryRoutedOnce(fj, notNeed, e);
    if !NotNeedEntries(e.name, notNeed) {
      BuildOutput(m0, jars, dirs, notNeed, sep, emit);
      var items := DirQueued(fd, notNeed, sep) + Queued(fj, notNeed);
      var w := WorkItem(e.name, e.data);
      QueuedMembers(fj, notNeed, w);
      assert w in items;
      var k :| 0 <= k < |items| && items[k] == w;
      PackageEntries(items, emit);
      var pre := DirPassEntries(fd, notNeed, sep);
      IndexAppendRight(pre, Package(items, emit), k);
      assert b.jos[|pre| + k].name == e.name;
    }
  }

  /**
   * Incremental builds are idempotent: building again over the mirror a build left, with
   * the same inputs, changes nothing in the mirror (no deletion, no copy) and writes the
   * same output jar.
   */
  lemma BuildIdempotent(m0: Tree, jars: seq<seq<JarEntry>>, dirs: seq<seq<DirFile>>,
                        notNeed: string -> bool, sep: char, emit: WorkItem -> Bytes)
    requires Build(m0, jars, dirs, notNeed, sep, emit).Some?
    ensures var b := Build(m0, jars, dirs, notNeed, sep, emit).value;
      Build(b.mirror, jars, dirs, notNeed, sep, emit) == Some(b)
  {
    var fj, fd := Flatten(jars), Flatten(dirs);
    var s0 := ScanState(m0, {}, [], []);
    var b := Build(m0, jars, dirs, notNeed, sep, emit).value;
    BuildScan(m0, jars, dirs, notNeed, sep);
    var r := RouteJar(s0, fj, notNeed).value;
    var keep := PassPaths(fj, notNeed);
    assert b.mirror == PruneSpec(r.mirror, keep);
    RouteJarMirror(s0, fj, notNeed);
    BuildMirrorExact(m0, jars, dirs, notNeed, sep, emit);
    assert Settled(b.mirror, fj, notNeed);
    var s1 := ScanState(b.mirror, {}, [], []);
    RouteJarOnSettled(s1, fj, notNeed);
    RouteJarsFlatten(s1, jars, notNeed);
    var r1 := RouteJar(s1, fj, notNeed).value;
    assert {} + keep == keep;
    assert Queued(fj, notNeed) + [] == Queued(fj, notNeed);
    assert r1 == ScanState(b.mirror, keep, Queued(fj, notNeed), []);
    assert RouteJars(s1, jars, notNeed) == Some(r1);
    RouteDirsFlatten(r1, dirs, notNeed, sep);
    RouteDirEffect(r1, fd, notNeed, sep);
    var scan1 := ScanState(b.mirror, keep, DirQueued(fd, notNeed, sep) + Queued(fj, notNeed), DirPassEntries(fd, notNeed, sep));
    assert [] + DirPassEntries(fd, notNeed, sep) == DirPassEntries(fd, notNeed, sep);
    assert RouteDirs(r1, dirs, notNeed, sep) == scan1;
    assert Route(s1, jars, dirs, notNeed, sep) == Some(scan1);
    PruneSpecIdempotent(r.mirror, keep);
    assert PruneSpec(b.mirror, keep) == b.mirror;
    assert b.jos == scan1.jos + Package(scan1.needs, emit);
  }
}
