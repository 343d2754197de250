/**
 * The mirror directory of pass-through entries, as a finite tree of files and
 * directories, and the stale-file pruning the transform task runs over it.
 */
module FileTree {
  import opened Wrappers
  import opened Paths

  type Bytes = seq<bv8>

  /** Files with their contents and directories, each named by its path below the mirror root. */
  datatype Tree = Tree(files: map<Path, Bytes>, dirs: set<Path>)

  function Nodes(t: Tree): set<Path> {
    t.files.Keys + t.dirs
  }

  /** A real file tree: no path is both a file and a directory, and every ancestor of a node is a directory. */
  ghost predicate WellFormed(t: Tree) {
    && t.files.Keys !! t.dirs
    && (forall p, i :: p in t.files && 0 <= i < |p| ==> p[..i] in t.dirs)
    && (forall p, i :: p in t.dirs && 0 <= i < |p| ==> p[..i] in t.dirs)
  }

  /** The directories `mkdirs` creates for a file at `p`: every proper prefix of `p`. */
  function Ancestors(p: Path): set<Path> {
    set i | 0 <= i < |p| :: p[..i]
  }

  /** `p` cannot become a file: it is a directory, or some ancestor of it is a file. */
  predicate Blocked(t: Tree, p: Path) {
    p in t.dirs || exists i :: 0 <= i < |p| && p[..i] in t.files
  }

  /**
   * `parent.mkdirs()` followed by `createNewFile()` and a copy of `data`. When a
   * directory stands at `p`, or a file stands where a parent directory has to be, the
   * file system refuses and the build fails (None).
   */
  function CreateFile(t: Tree, p: Path, data: Bytes): (r: Option<Tree>)
    requires p !in t.files
    ensures r.Some? <==> !Blocked(t, p)
    ensures r.Some? ==> r.value.files == t.files[p := data] && r.value.dirs == t.dirs + Ancestors(p)
    ensures WellFormed(t) && r.Some? ==> WellFormed(r.value)
  {
    if Blocked(t, p) then None
    else
      var r := Tree(t.files[p := data], t.dirs + Ancestors(p));
      assert WellFormed(t) ==> WellFormed(r) by {
        if WellFormed(t) {
          forall q, i | q in r.dirs && 0 <= i < |q| ensures q[..i] in r.dirs {
            if q in Ancestors(p) {
              var j :| 0 <= j < |p| && q == p[..j];
              assert q[..i] == p[..i];
            }
          }
        }
      }
      Some(r)
  }

  /** `if (file.isFile) file.delete()`: removes a file, leaves directories alone. */
  function DeleteFile(t: Tree, p: Path): (r: Tree)
    ensures r.files.Keys == t.files.Keys - {p} && r.dirs == t.dirs
    ensures forall q :: q in r.files ==> r.files[q] == t.files[q]
    ensures WellFormed(t) ==> WellFormed(r)
  {
    t.(files := t.files - {p})
  }

  /** `dir.list()` is not empty: some node lies directly below `d`. */
  predicate HasChild(t: Tree, d: Path) {
    exists c :: c in Nodes(t) && |c| == |d| + 1 && c[..|d|] == d
  }

  /**
   * One step of the bottom-up walk of `cleanNotNeedOutput`: an empty directory is
   * deleted, a file outside the keep-set is deleted, anything else stays.
   */
  function PruneStep(t: Tree, keep: set<Path>, p: Path): Tree {
    if p in t.dirs then
      if HasChild(t, p) then t else t.(dirs := t.dirs - {p})
    else if p !in keep then
      t.(files := t.files - {p})
    else
      t
  }

  /** The walk applied to the nodes of `order`, first to last. */
  function Prune(t: Tree, keep: set<Path>, order: seq<Path>): Tree
    decreases |order|
  {
    if order == [] then t
    else PruneStep(Prune(t, keep, order[..|order| - 1]), keep, order[|order| - 1])
  }

  /** `order` is a bottom-up walk of `t`: it visits every node, and a directory after everything below it. */
  ghost predicate PostOrder(order: seq<Path>, t: Tree) {
    && (forall p :: p in Nodes(t) ==> p in order)
    && (forall i, j :: 0 <= i < |order| && 0 <= j < |order| && StrictPrefix(order[i], order[j]) ==> j < i)
  }

  /** Visiting every node, longer paths before shorter ones, is a bottom-up walk. */
  lemma LongestFirstIsPostOrder(order: seq<Path>, t: Tree)
    requires forall p :: p in Nodes(t) ==> p in order
    requires forall i, j :: 0 <= i < j < |order| ==> |order[j]| <= |order[i]|
    ensures PostOrder(order, t)
  {
    forall i, j | 0 <= i < |order| && 0 <= j < |order| && StrictPrefix(order[i], order[j]) ensures j < i {
      assert |order[i]| < |order[j]|;
    }
  }

  /**
   * Part way through a longest-first walk of `nodes`: every node is visited or pending,
   * the visited paths are in non-increasing length, and none pending is longer than any visited.
   */
  ghost predicate Walked(nodes: set<Path>, pending: set<Path>, order: seq<Path>) {
    && (forall p :: p in nodes ==> p in pending || p in order)
    && (forall i, j :: 0 <= i < j < |order| ==> |order[j]| <= |order[i]|)
    && (forall i, q :: 0 <= i < |order| && q in pending ==> |q| <= |order[i]|)
  }

  /** Visiting a longest pending path keeps the walk longest-first. */
  lemma WalkStep(nodes: set<Path>, pending: set<Path>, order: seq<Path>, p: Path)
    requires Walked(nodes, pending, order)
    requires p in pending && forall q :: q in pending ==> |q| <= |p|
    ensures Walked(nodes, pending - {p}, order + [p])
  {
    var order' := order + [p];
    forall i, j | 0 <= i < j < |order'| ensures |order'[j]| <= |order'[i]| {
      if j == |order| {
        assert order'[j] == p && order'[i] == order[i];
      } else {
        assert order'[j] == order[j] && order'[i] == order[i];
      }
    }
    forall i, q | 0 <= i < |order'| && q in pending - {p} ensures |q| <= |order'[i]| {
      if i < |order| {
        assert order'[i] == order[i];
      }
    }
  }

  /** Some file of the keep-set lies below `d`. */
  ghost predicate HasKeptBelow(t: Tree, keep: set<Path>, d: Path) {
    exists f :: f in t.files && f in keep && StrictPrefix(d, f)
  }

  /**
   * What pruning leaves, stated without the walk: exactly the kept files, with their
   * bytes, and exactly the directories that still have a kept file below them.
   */
  ghost function PruneSpec(t: Tree, keep: set<Path>): Tree {
    Tree(map f | f in t.files && f in keep :: t.files[f],
         set d | d in t.dirs && HasKeptBelow(t, keep, d))
  }

  /** The state after the walk has visited `done`. */
  ghost predicate PrunedUpTo(t: Tree, keep: set<Path>, done: seq<Path>, s: Tree) {
    && (forall f :: f in s.files <==> f in t.files && (f in keep || f !in done))
    && (forall f :: f in s.files ==> s.files[f] == t.files[f])
    && (forall d :: d in s.dirs <==> d in t.dirs && (d !in done || HasKeptBelow(t, keep, d)))
  }

  /** In a post-order, every node below the k-th visited path was visited before it. */
  lemma BelowVisitedEarlier(t: Tree, order: seq<Path>, k: nat, q: Path)
    requires PostOrder(order, t) && k < |order|
    requires q in Nodes(t) && StrictPrefix(order[k], q)
    ensures q in order[..k]
  {
    var j :| 0 <= j < |order| && order[j] == q;
    assert j < k;
    assert order[..k][j] == q;
  }

  /** When the walk reaches a directory, a child it still has leads to a kept file below it. */
  lemma ChildMeansKeptBelow(t: Tree, keep: set<Path>, order: seq<Path>, k: nat, s: Tree)
    requires PostOrder(order, t) && k < |order|
    requires PrunedUpTo(t, keep, order[..k], s)
    requires HasChild(s, order[k])
    ensures HasKeptBelow(t, keep, order[k])
  {
    var d := order[k];
    var c :| c in Nodes(s) && |c| == |d| + 1 && c[..|d|] == d;
    assert c in Nodes(t);
    BelowVisitedEarlier(t, order, k, c);
    if c in s.files {
      assert c in keep;
      assert StrictPrefix(d, c);
    } else {
      assert HasKeptBelow(t, keep, c);
      var f :| f in t.files && f in keep && StrictPrefix(c, f);
      assert f[..|d|] == c[..|d|];
      assert StrictPrefix(d, f);
    }
  }

  /** When the walk reaches a directory with a kept file below it, that directory still has a child. */
  lemma KeptBelowMeansChild(t: Tree, keep: set<Path>, order: seq<Path>, k: nat, s: Tree)
    requires WellFormed(t) && PostOrder(order, t) && k < |order|
    requires PrunedUpTo(t, keep, order[..k], s)
    requires HasKeptBelow(t, keep, order[k])
    ensures HasChild(s, order[k])
  {
    var d := order[k];
    var f :| f in t.files && f in keep && StrictPrefix(d, f);
    assert f in s.files;
    var c := f[..|d| + 1];
    assert c[..|d|] == d;
    if |f| == |d| + 1 {
      assert c == f;
      assert c in Nodes(s);
    } else {
      assert c in t.dirs;
      assert c in Nodes(t);
      assert StrictPrefix(c, f);
      assert HasKeptBelow(t, keep, c);
      assert c in s.dirs;
      assert c in Nodes(s);
    }
  }

  /** One visit extends PrunedUpTo by the visited path, given how the directory test comes out. */
  lemma PruneStepExtends(t: Tree, keep: set<Path>, done: seq<Path>, p: Path, s: Tree)
    requires t.files.Keys !! t.dirs
    requires PrunedUpTo(t, keep, done, s)
    requires p in s.dirs ==> (HasChild(s, p) <==> HasKeptBelow(t, keep, p))
    ensures PrunedUpTo(t, keep, done + [p], PruneStep(s, keep, p))
  {
    var r := PruneStep(s, keep, p);
    var done' := done + [p];
    assert forall q :: q in done' <==> q in done || q == p;
    if p in s.dirs {
      assert r.files == s.files;
      assert forall d :: d in r.dirs <==> d in t.dirs && (d !in done' || HasKeptBelow(t, keep, d));
    } else if p !in keep {
      assert r.dirs == s.dirs;
      assert forall f :: f in r.files <==> f in t.files && (f in keep || f !in done');
    } else {
      assert r == s;
    }
  }

  /** When the walk reaches a directory, it still has a child exactly when a kept file lies below it. */
  lemma DirTestAgrees(t: Tree, keep: set<Path>, order: seq<Path>, k: nat, s: Tree)
    requires WellFormed(t) && PostOrder(order, t) && k < |order|
    requires PrunedUpTo(t, keep, order[..k], s)
    ensures HasChild(s, order[k]) <==> HasKeptBelow(t, keep, order[k])
  {
    if HasChild(s, order[k]) {
      ChildMeansKeptBelow(t, keep, order, k, s);
    }
    if HasKeptBelow(t, keep, order[k]) {
      KeptBelowMeansChild(t, keep, order, k, s);
    }
  }

  lemma {:induction false} PruneInvariant(t: Tree, keep: set<Path>, order: seq<Path>, k: nat)
    requires WellFormed(t) && PostOrder(order, t) && k <= |order|
    ensures PrunedUpTo(t, keep, order[..k], Prune(t, keep, order[..k]))
  {
    if k > 0 {
      PruneInvariant(t, keep, order, k - 1);
      var done := order[..k - 1];
      var s := Prune(t, keep, done);
      var p := order[k - 1];
      assert order[..k][..k - 1] == done;
      assert order[..k] == done + [p];
      assert Prune(t, keep, order[..k]) == PruneStep(s, keep, p);
      DirTestAgrees(t, keep, order, k - 1, s);
      PruneStepExtends(t, keep, done, p, s);
    }
  }

  /**
   * The pruning walk, over any bottom-up order, leaves exactly PruneSpec: no file outside
   * the keep-set, every kept file with its bytes, and exactly the directories that still
   * hold a kept file. A directory emptied by the walk (or empty from the start) is gone.
   */
  lemma PruneMeetsSpec(t: Tree, keep: set<Path>, order: seq<Path>)
    requires WellFormed(t) && PostOrder(order, t)
    ensures Prune(t, keep, order) == PruneSpec(t, keep)
  {
    PruneInvariant(t, keep, order, |order|);
    assert order[..|order|] == order;
    var r := Prune(t, keep, order);
    var g := PruneSpec(t, keep);
    assert r.files == g.files;
    assert r.dirs == g.dirs;
  }

  /** What pruning leaves is a well-formed tree again. */
  lemma PruneSpecWellFormed(t: Tree, keep: set<Path>)
    requires WellFormed(t)
    ensures WellFormed(PruneSpec(t, keep))
  {
    var g := PruneSpec(t, keep);
    forall p, i | p in g.files && 0 <= i < |p| ensures p[..i] in g.dirs {
      assert StrictPrefix(p[..i], p);
    }
    forall p, i | p in g.dirs && 0 <= i < |p| ensures p[..i] in g.dirs {
      var f :| f in t.files && f in keep && StrictPrefix(p, f);
      assert f[..i] == p[..i];
      assert StrictPrefix(p[..i], f);
    }
  }

  /** Pruning twice with the same keep-set removes nothing more. */
  lemma PruneSpecIdempotent(t: Tree, keep: set<Path>)
    ensures PruneSpec(PruneSpec(t, keep), keep) == PruneSpec(t, keep)
  {
    var g := PruneSpec(t, keep);
    var h := PruneSpec(g, keep);
    assert h.files == g.files;
    forall d | d in g.dirs ensures HasKeptBelow(g, keep, d) {
      var f :| f in t.files && f in keep && StrictPrefix(d, f);
      assert f in g.files;
    }
    assert h.dirs == g.dirs;
  }

  /** Every finite non-empty set of paths has a longest member. */
  lemma LongestExists(s: set<Path>)
    requires s != {}
    ensures exists p :: p in s && forall q :: q in s ==> |q| <= |p|
  {
    var a :| a in s;
    if s - {a} != {} {
      LongestExists(s - {a});
      var b :| b in s - {a} && forall q :: q in s - {a} ==> |q| <= |b|;
      if |a| > |b| {
        assert forall q :: q in s ==> |q| <= |a|;
      } else {
        assert forall q :: q in s ==> |q| <= |b|;
      }
    } else {
      assert s == {a};
    }
  }
}
