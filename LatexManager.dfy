/** LaTeX Workshop's document manager (`out/src/components/manager.js`,
    class `Manager`) as a class over its mutable state: the inclusion tree,
    the list of watched paths, the root file chosen per workspace and the
    root recorded for each file. The two file watchers are reduced to
    whether they exist and which path each was created for; what the
    citation completer is asked to do is kept as a log. */
module LatexManager {
  import opened Js
  import opened Paths
  import opened LatexGraph

  /** A request the manager makes of the citation completer. */
  datatype CitationCall = ParseBib(path: string) | ForgetBib(path: string)

  /** What the editor host reports: the active editor (if any), the
      workspace's root path, the workspace folder of the active editor, the
      `.tex` files of the workspace `findFiles` lists, and, for each glob of
      the `latex.additionalBib` setting, the files it matches. */
  datatype Host = Host(
    active: Option<ActiveDoc>,
    rootPath: Option<string>,
    activeFolder: Option<string>,
    texFiles: seq<string>,
    bibGlobs: seq<seq<string>>)

  /** How `findRoot` ends: a root was found, none was, or a root was found
      but reading it failed and the returned promise rejects. */
  datatype FindRootOutcome = Found(root: string) | NotFound | Threw(root: string)

  /** The part of the manager's state that `findAllDependentFiles` and the
      fast rescans change: the tree, the watch list, both watchers and the
      citation requests. */
  datatype Watching = Watching(tree: Tree, watched: seq<string>, hasFileWatcher: bool, fileWatcherRoot: string,
                               hasBibWatcher: bool, bibWatcherRoot: string, calls: seq<CitationCall>)

  /** The resolved bibliography file `r` is watched: by the list, or as the
      file the bibliography watcher was created for. */
  predicate BibWatched(r: Option<string>, watched: seq<string>, hasBibWatcher: bool, bibWatcherRoot: string) {
    r.Some? ==> hasBibWatcher && (r.value in watched || r.value == bibWatcherRoot)
  }

  lemma BibWatchedGrows(r: Option<string>, w1: seq<string>, w2: seq<string>, b1: bool, r1: string, b2: bool, r2: string)
    requires BibWatched(r, w1, b1, r1)
    requires forall y :: y in w1 ==> y in w2
    requires b1 ==> b2 && r2 == r1
    ensures BibWatched(r, w2, b2, r2)
  {
  }

  /** The bibliography watcher's state after `addBibToWatcher` found
      `r`: nothing happens when no file was found; the first file found
      creates the watcher without entering the list; a later file enters
      the list unless it is already listed; a newly watched file is parsed
      for citations. */
  predicate WatchedBib(r: Option<string>, w0: seq<string>, b0: bool, r0: string, c0: seq<CitationCall>,
                       w: seq<string>, b: bool, root: string, c: seq<CitationCall>)
  {
    if r.None? then w == w0 && b == b0 && root == r0 && c == c0
    else if !b0 then b && root == r.value && w == w0 && c == c0 + [ParseBib(r.value)]
    else if r.value !in w0 then b && root == r0 && w == w0 + [r.value] && c == c0 + [ParseBib(r.value)]
    else b && root == r0 && w == w0 && c == c0
  }

  /** What a non-fast scan of `x` leaves watched: every child, when there is
      a file watcher, and every bibliography file its directives name. */
  ghost predicate Covered(e: Edges, be: map<string, seq<Option<string>>>, x: string, watched: seq<string>,
                          hasFileWatcher: bool, hasBibWatcher: bool, bibWatcherRoot: string)
    requires x in e && x in be
  {
    && (hasFileWatcher ==> forall c :: c in Kids(e, x) ==> c in watched)
    && forall k :: 0 <= k < |be[x]| ==> BibWatched(be[x][k], watched, hasBibWatcher, bibWatcherRoot)
  }

  /** Watching more keeps a covered file covered. */
  lemma CoveredGrows(e: Edges, be: map<string, seq<Option<string>>>, x: string, w1: seq<string>, w2: seq<string>,
                     hasFileWatcher: bool, b1: bool, r1: string, b2: bool, r2: string)
    requires x in e && x in be
    requires Covered(e, be, x, w1, hasFileWatcher, b1, r1)
    requires forall y :: y in w1 ==> y in w2
    requires b1 ==> b2 && r2 == r1
    ensures Covered(e, be, x, w2, hasFileWatcher, b2, r2)
  {
  }

  /** A list that extends another holds all of its elements. */
  lemma PrefixMembers(a: seq<string>, b: seq<string>)
    requires |a| <= |b| && b[..|a|] == a
    ensures forall y :: y in a ==> y in b
  {
    forall y | y in a ensures y in b {
      var k :| 0 <= k < |a| && a[k] == y;
      assert b[k] == y;
    }
  }

  /** Every file of `s` is covered. */
  ghost predicate AllCovered(e: Edges, be: map<string, seq<Option<string>>>, s: set<string>, watched: seq<string>,
                             hasFileWatcher: bool, hasBibWatcher: bool, bibWatcherRoot: string)
  {
    forall x :: x in s ==> (x in e && x in be && Covered(e, be, x, watched, hasFileWatcher, hasBibWatcher, bibWatcherRoot))
  }

  lemma AllCoveredGrows(e: Edges, be: map<string, seq<Option<string>>>, s: set<string>, w1: seq<string>, w2: seq<string>,
                        hasFileWatcher: bool, b1: bool, r1: string, b2: bool, r2: string)
    requires AllCovered(e, be, s, w1, hasFileWatcher, b1, r1)
    requires forall y :: y in w1 ==> y in w2
    requires b1 ==> b2 && r2 == r1
    ensures AllCovered(e, be, s, w2, hasFileWatcher, b2, r2)
  {
    forall x | x in s
      ensures x in e && x in be && Covered(e, be, x, w2, hasFileWatcher, b2, r2)
    {
      CoveredGrows(e, be, x, w1, w2, hasFileWatcher, b1, r1, b2, r2);
    }
  }

  /** The watch list only grows at its end, by existing files, and never
      gains a duplicate. */
  ghost predicate WatchExtends(w0: seq<string>, w: seq<string>, fs: FileSystem) {
    && |w0| <= |w| && w[..|w0|] == w0
    && (forall k :: |w0| <= k < |w| ==> w[k] in fs.files)
    && (NoDup(w0) ==> NoDup(w))
  }

  lemma WatchExtendsTrans(w0: seq<string>, w1: seq<string>, w2: seq<string>, fs: FileSystem)
    requires WatchExtends(w0, w1, fs) && WatchExtends(w1, w2, fs)
    ensures WatchExtends(w0, w2, fs)
    ensures forall y :: y in w1 ==> y in w2
    ensures forall y :: y in w0 ==> y in w2
  {
    assert w2[..|w0|] == w2[..|w1|][..|w0|];
    forall k | |w0| <= k < |w2| ensures w2[k] in fs.files {
      if k < |w1| { assert w2[k] == w2[..|w1|][k]; }
    }
    PrefixMembers(w1, w2);
    PrefixMembers(w0, w1);
  }

  /** Watching one more existing, unlisted file extends the list. */
  lemma WatchPush(w: seq<string>, c: string, fs: FileSystem)
    requires c in fs.files && c !in w
    ensures WatchExtends(w, w + [c], fs)
  {
    assert (w + [c])[..|w|] == w;
  }

  lemma WatchExtendsRefl(w: seq<string>, fs: FileSystem)
    ensures WatchExtends(w, w, fs)
  {
    assert w[..|w|] == w;
  }

  /** The files that the resolutions `rs` found. */
  function BibFiles(rs: seq<Option<string>>): set<string> {
    set k | 0 <= k < |rs| && rs[k].Some? :: rs[k].value
  }

  /** The bibliography files the files of `s` name. */
  ghost function ScanBibs(be: map<string, seq<Option<string>>>, s: set<string>): set<string> {
    set x, p | x in s && x in be && p in BibFiles(be[x]) :: p
  }

  /** What non-fast scans of the files of `s` may add to the watch list:
      their children and the bibliography files they name. */
  ghost function ScanAdds(e: Edges, be: map<string, seq<Option<string>>>, s: set<string>): set<string> {
    (set x, c | x in s && x in e && c in Kids(e, x) :: c) + ScanBibs(be, s)
  }

  /** Since the state `(w0, b0, c0)` the watch list gained only paths of
      `a`, and the bibliography watcher and the citation requests only
      files of `bibs`: a watcher created for one of them, and requests to
      parse them. */
  ghost predicate AddsOnly(w0: seq<string>, w: seq<string>, b0: bool, b: bool, r: string,
                           c0: seq<CitationCall>, c: seq<CitationCall>, a: set<string>, bibs: set<string>)
  {
    && (forall k :: |w0| <= k < |w| ==> w[k] in a)
    && (!b0 && b ==> r in bibs)
    && |c0| <= |c| && c[..|c0|] == c0
    && (forall k :: |c0| <= k < |c| ==> c[k].ParseBib? && c[k].path in bibs)
  }

  lemma AddsNothing(w: seq<string>, b: bool, r: string, c: seq<CitationCall>, a: set<string>, bibs: set<string>)
    ensures AddsOnly(w, w, b, b, r, c, c, a, bibs)
  {
    assert c[..|c|] == c;
  }

  /** Two stretches that each add only what they may compose, within any
      bounds that hold both. */
  lemma AddsOnlyTrans(w0: seq<string>, w1: seq<string>, w2: seq<string>, b0: bool, b1: bool, r1: string,
                      b2: bool, r2: string, c0: seq<CitationCall>, c1: seq<CitationCall>, c2: seq<CitationCall>,
                      a1: set<string>, bibs1: set<string>, a2: set<string>, bibs2: set<string>,
                      a: set<string>, bibs: set<string>)
    requires |w0| <= |w1| <= |w2| && w2[..|w1|] == w1
    requires AddsOnly(w0, w1, b0, b1, r1, c0, c1, a1, bibs1) && AddsOnly(w1, w2, b1, b2, r2, c1, c2, a2, bibs2)
    requires BibStable(b1, r1, b2, r2)
    requires a1 <= a && a2 <= a && bibs1 <= bibs && bibs2 <= bibs
    ensures AddsOnly(w0, w2, b0, b2, r2, c0, c2, a, bibs)
  {
    forall k | |w0| <= k < |w2| ensures w2[k] in a {
      if k < |w1| { assert w2[k] == w2[..|w1|][k]; }
    }
    assert c2[..|c0|] == c2[..|c1|][..|c0|];
    forall k | |c0| <= k < |c2| ensures c2[k].ParseBib? && c2[k].path in bibs {
      if k < |c1| { assert c2[k] == c2[..|c1|][k]; }
    }
  }

  /** `addBibToWatcher` adds only the file it found. */
  lemma WatchedBibAdds(r: Option<string>, w0: seq<string>, b0: bool, r0: string, c0: seq<CitationCall>,
                       w: seq<string>, b: bool, root: string, c: seq<CitationCall>)
    requires WatchedBib(r, w0, b0, r0, c0, w, b, root, c)
    ensures |w0| <= |w| && w[..|w0|] == w0
    ensures AddsOnly(w0, w, b0, b, root, c0, c, OptSet(r), OptSet(r))
  {
    assert w0[..|w0|] == w0 && c0[..|c0|] == c0;
    if r.Some? {
      assert (w0 + [r.value])[..|w0|] == w0 && (c0 + [ParseBib(r.value)])[..|c0|] == c0;
    }
  }

  /** What a loop of `addBibToWatcher` calls over the resolutions `rs`
      promises after `j` turns, from the list `w0`, watcher `(b0, r0)` and
      requests `c0`: the first `j` files watched, and only files of `rs`
      added. */
  ghost predicate BibLoop(fs: FileSystem, rs: seq<Option<string>>, j: nat,
                          w0: seq<string>, b0: bool, r0: string, c0: seq<CitationCall>,
                          w: seq<string>, b: bool, root: string, c: seq<CitationCall>)
    requires j <= |rs|
  {
    && (forall k :: 0 <= k < j ==> BibWatched(rs[k], w, b, root))
    && WatchExtends(w0, w, fs)
    && BibStable(b0, r0, b, root)
    && AddsOnly(w0, w, b0, b, root, c0, c, BibFiles(rs), BibFiles(rs))
  }

  lemma BibLoopStart(fs: FileSystem, rs: seq<Option<string>>, w: seq<string>, b: bool, root: string,
                     c: seq<CitationCall>)
    ensures BibLoop(fs, rs, 0, w, b, root, c, w, b, root, c)
  {
    WatchExtendsRefl(w, fs);
    AddsNothing(w, b, root, c, BibFiles(rs), BibFiles(rs));
  }

  /** The `j`-th turn, which watched `rs[j]` (an existing file, if any). */
  lemma BibLoopStep(fs: FileSystem, rs: seq<Option<string>>, j: nat,
                    w0: seq<string>, b0: bool, r0: string, c0: seq<CitationCall>,
                    wj: seq<string>, bj: bool, rj: string, cj: seq<CitationCall>,
                    w: seq<string>, b: bool, root: string, c: seq<CitationCall>)
    requires j < |rs| && BibLoop(fs, rs, j, w0, b0, r0, c0, wj, bj, rj, cj)
    requires rs[j].Some? ==> rs[j].value in fs.files
    requires WatchedBib(rs[j], wj, bj, rj, cj, w, b, root, c) && BibWatched(rs[j], w, b, root)
    requires NoDup(wj) ==> NoDup(w)
    ensures BibLoop(fs, rs, j + 1, w0, b0, r0, c0, w, b, root, c)
  {
    WatchedBibAdds(rs[j], wj, bj, rj, cj, w, b, root, c);
    assert WatchExtends(wj, w, fs);
    WatchExtendsTrans(w0, wj, w, fs);
    assert OptSet(rs[j]) <= BibFiles(rs);
    AddsOnlyTrans(w0, wj, w, b0, bj, rj, b, root, c0, cj, c, BibFiles(rs), BibFiles(rs), OptSet(rs[j]),
      OptSet(rs[j]), BibFiles(rs), BibFiles(rs));
    forall k | 0 <= k < j + 1 ensures BibWatched(rs[k], w, b, root) {
      if k < j {
        BibWatchedGrows(rs[k], wj, w, bj, rj, b, root);
      }
    }
  }

  /** The push of `findAllDependentFiles` onto the list `w0` of a file
      watcher (`h0`) or of none: with the old watcher closed the list
      restarts from `root` and stays free of duplicates; with no watcher the
      push is unguarded, so a `root` already listed (a bibliography file
      pushed by `addBibToWatcher`) is listed twice, and duplicates already
      in the list stay. */
  lemma {:induction false} RootPushNoDup(w0: seq<string>, h0: bool, root: string, w: seq<string>, fs: FileSystem)
    requires WatchExtends((if h0 then [] else w0) + [root], w, fs)
    ensures NoDup(w) <==> h0 || (NoDup(w0) && root !in w0)
  {
    var base := (if h0 then [] else w0) + [root];
    if h0 || (NoDup(w0) && root !in w0) {
      assert NoDup(base);
    } else if root in w0 {
      var k :| 0 <= k < |w0| && w0[k] == root;
      assert w[k] == base[k] && w[|w0|] == base[|w0|];
    } else {
      var i, j :| 0 <= i < j < |w0| && w0[i] == w0[j];
      assert w[i] == base[i] && w[j] == base[j];
    }
  }

  /** Once the bibliography watcher exists it stays, on the same file. */
  predicate BibStable(b0: bool, r0: string, b: bool, r: string) {
    b0 ==> b && r == r0
  }

  /** The tree after scans that reached `s` from `f`: the entries of `s`
      are their files' children, `f` has an entry, and every other entry
      is as it was. */
  ghost predicate TreeScanned(tree: Tree, t0: Tree, e: Edges, f: string, s: set<string>) {
    && f in tree
    && (forall x :: x in tree <==> x in t0 || x == f || x in s)
    && (forall x :: x in s ==> x in e && x in tree && tree[x] == Kids(e, x))
    && (forall x :: x in t0 && x != f && x !in s ==> tree[x] == t0[x])
  }

  /** What the scan of `f` may have added after its first `i` directives:
      what its nested scans may add and, unless it is fast, the children
      recorded so far. */
  ghost function ProgressAdds(e: Edges, be: map<string, seq<Option<string>>>, rank: map<string, nat>, f: string,
                              fast: bool, i: nat): set<string>
    requires EdgesRanked(e, rank) && f in rank && f in e && i <= |e[f]|
  {
    ScanAdds(e, be, ReachUpTo(e, rank, f, i)) + (if fast then {} else KidsUpTo(e, f, i))
  }

  /** The state of a scan of `f` after its first `i` inclusion directives,
      relative to the state `(t0, w0, b0, r0, c0)` the scan started from. */
  ghost predicate ScanProgress(fs: FileSystem, e: Edges, be: map<string, seq<Option<string>>>, rank: map<string, nat>, f: string, fast: bool, i: nat,
                               tree: Tree, t0: Tree, watched: seq<string>, w0: seq<string>, hasFileWatcher: bool,
                               hasBibWatcher: bool, bibWatcherRoot: string, b0: bool, r0: string,
                               calls: seq<CitationCall>, c0: seq<CitationCall>)
    requires EdgesRanked(e, rank) && f in rank && f in e && i <= |e[f]|
  {
    && tree[f := KidsUpTo(e, f, i)] == tree
    && TreeScanned(tree, t0, e, f, ReachUpTo(e, rank, f, i))
    && AllCovered(e, be, ReachUpTo(e, rank, f, i), watched, hasFileWatcher, hasBibWatcher, bibWatcherRoot)
    && (!fast && hasFileWatcher ==> forall c :: c in KidsUpTo(e, f, i) ==> c in watched)
    && (fast && KidsUpTo(e, f, i) == {} ==>
          watched == w0 && hasBibWatcher == b0 && bibWatcherRoot == r0 && calls == c0)
    && TreeRanked(tree, rank)
    && WatchExtends(w0, watched, fs)
    && BibStable(b0, r0, hasBibWatcher, bibWatcherRoot)
    && AddsOnly(w0, watched, b0, hasBibWatcher, bibWatcherRoot, c0, calls, ProgressAdds(e, be, rank, f, fast, i),
         ScanBibs(be, ReachUpTo(e, rank, f, i)))
  }

  /** A scan of `f` starts by giving `f` an empty entry. */
  lemma ScanStart(fs: FileSystem, e: Edges, be: map<string, seq<Option<string>>>, rank: map<string, nat>, f: string,
                  fast: bool, t0: Tree, w0: seq<string>, hasFileWatcher: bool, b0: bool, r0: string, c0: seq<CitationCall>)
    requires EdgesRanked(e, rank) && f in rank && f in e && TreeRanked(t0, rank)
    ensures ScanProgress(fs, e, be, rank, f, fast, 0, t0[f := {}], t0, w0, w0, hasFileWatcher, b0, r0, b0, r0, c0, c0)
  {
    assert t0[f := {}][f := {}] == t0[f := {}];
    AddsNothing(w0, b0, r0, c0, ProgressAdds(e, be, rank, f, fast, 0), ScanBibs(be, ReachUpTo(e, rank, f, 0)));
  }

  /** A directive that resolves to nothing leaves the scan state as it
      was. */
  lemma ScanStepNone(fs: FileSystem, e: Edges, be: map<string, seq<Option<string>>>, rank: map<string, nat>, f: string,
                     fast: bool, i: nat, j: nat, tree: Tree, t0: Tree, watched: seq<string>, w0: seq<string>, hasFileWatcher: bool,
                     hasBibWatcher: bool, bibWatcherRoot: string, b0: bool, r0: string,
                     calls: seq<CitationCall>, c0: seq<CitationCall>, progress: bool)
    requires EdgesRanked(e, rank) && f in rank && f in e && i < |e[f]| && e[f][i].None? && j == i + 1
    requires progress
    requires progress == ScanProgress(fs, e, be, rank, f, fast, i, tree, t0, watched, w0, hasFileWatcher,
                          hasBibWatcher, bibWatcherRoot, b0, r0, calls, c0)
    ensures ScanProgress(fs, e, be, rank, f, fast, j, tree, t0, watched, w0, hasFileWatcher,
                         hasBibWatcher, bibWatcherRoot, b0, r0, calls, c0)
  {
    assert KidsUpTo(e, f, i + 1) == KidsUpTo(e, f, i);
    assert ReachUpTo(e, rank, f, i + 1) == ReachUpTo(e, rank, f, i);
  }

  /** Recording child `c` under `f` and then scanning `c`, which visits
      `sc`, composes with the scans that visited `s` before. */
  lemma TreeCompose(tA: Tree, tC: Tree, t0: Tree, e: Edges, f: string, s: set<string>, c: string, sc: set<string>)
    requires TreeScanned(tA, t0, e, f, s) && f !in s && f !in sc && c in sc
    requires TreeScanned(tC, tA[f := tA[f] + {c}], e, c, sc)
    ensures TreeScanned(tC, t0, e, f, s + sc)
    ensures tC[f := tA[f] + {c}] == tC
  {
    var tB := tA[f := tA[f] + {c}];
    forall x | x in s + sc ensures x in e && x in tC && tC[x] == Kids(e, x) {
      if x !in sc {
        assert x in tB && x != c;
      }
    }
  }

  /** Coverage of `s` survives the scan of a child that covers `sc`. */
  lemma AllCoveredUnion(e: Edges, be: map<string, seq<Option<string>>>, s: set<string>, sc: set<string>,
                        w1: seq<string>, w2: seq<string>, hasFileWatcher: bool, b1: bool, r1: string, b2: bool, r2: string)
    requires AllCovered(e, be, s, w1, hasFileWatcher, b1, r1)
    requires AllCovered(e, be, sc, w2, hasFileWatcher, b2, r2)
    requires forall y :: y in w1 ==> y in w2
    requires b1 ==> b2 && r2 == r1
    ensures AllCovered(e, be, s + sc, w2, hasFileWatcher, b2, r2)
  {
    AllCoveredGrows(e, be, s, w1, w2, hasFileWatcher, b1, r1, b2, r2);
  }

  /** A resolved directive leads to a file ranked below its parent. */
  lemma EdgeRanked(e: Edges, rank: map<string, nat>, g: string, i: nat)
    requires EdgesRanked(e, rank) && g in rank && g in e && i < |e[g]| && e[g][i].Some?
    ensures e[g][i].value in rank && rank[e[g][i].value] < rank[g]
  {
  }

  /** Recording a lower-ranked child keeps the tree ranked. */
  lemma TreeRankedAdd(tree: Tree, rank: map<string, nat>, f: string, c: string)
    requires TreeRanked(tree, rank) && f in tree && c in rank && rank[c] < rank[f]
    ensures TreeRanked(tree[f := tree[f] + {c}], rank)
  {
  }

  /** What a full (not fast) scan of `c` leaves, from the tree `t0`, the
      list `w0`, the bibliography watcher `(b0, r0)` and the citation
      requests `c0`: everything it reaches recorded and covered, and the
      list, the watcher and the requests extended only by what it may add. */
  ghost predicate FullScan(fs: FileSystem, e: Edges, be: map<string, seq<Option<string>>>, rank: map<string, nat>,
                           c: string, t0: Tree, w0: seq<string>, b0: bool, r0: string, c0: seq<CitationCall>,
                           tree: Tree, watched: seq<string>, hasFileWatcher: bool, hasBibWatcher: bool,
                           bibWatcherRoot: string, calls: seq<CitationCall>)
    requires EdgesRanked(e, rank) && c in rank && c in e
  {
    && TreeScanned(tree, t0, e, c, Reach(e, rank, c)) && TreeRanked(tree, rank)
    && AllCovered(e, be, Reach(e, rank, c), watched, hasFileWatcher, hasBibWatcher, bibWatcherRoot)
    && WatchExtends(w0, watched, fs) && BibStable(b0, r0, hasBibWatcher, bibWatcherRoot)
    && AddsOnly(w0, watched, b0, hasBibWatcher, bibWatcherRoot, c0, calls, ScanAdds(e, be, Reach(e, rank, c)),
         ScanBibs(be, Reach(e, rank, c)))
  }

  /** A directive that resolves to `c`: record `c` under `f` (tree `tA`
      becomes `tA[f := tA[f] + {c}]`), watch it when asked to (list `wA`
      becomes `w1`), then scan it (ending in `tC`, `wC`, `bC`, `rC`).
      `progress` is the progress of the scan before the step, recorded as
      a flag by the caller before its state changes, and `nested` the
      outcome of the scan of `c`. */
  lemma ScanStepSome(fs: FileSystem, e: Edges, be: map<string, seq<Option<string>>>, rank: map<string, nat>, f: string,
                     fast: bool, i: nat, j: nat, c: string, hasFileWatcher: bool,
                     tA: Tree, wA: seq<string>, bA: bool, rA: string, callsA: seq<CitationCall>,
                     w1: seq<string>,
                     tC: Tree, wC: seq<string>, bC: bool, rC: string, callsC: seq<CitationCall>,
                     t0: Tree, w0: seq<string>, b0: bool, r0: string, c0: seq<CitationCall>, progress: bool,
                     nested: bool)
    requires EdgesRanked(e, rank) && f in rank && f in e && i < |e[f]| && e[f][i] == Some(c) && j == i + 1
    requires e.Keys == fs.files.Keys
    requires progress == ScanProgress(fs, e, be, rank, f, fast, i, tA, t0, wA, w0, hasFileWatcher, bA, rA, b0, r0, callsA, c0)
    requires progress
    requires w1 == if !fast && hasFileWatcher && c !in wA then wA + [c] else wA
    requires c in rank && c in e
    requires nested == FullScan(fs, e, be, rank, c, tA[f := tA[f] + {c}], w1, bA, rA, callsA, tC, wC, hasFileWatcher,
      bC, rC, callsC)
    requires nested
    ensures ScanProgress(fs, e, be, rank, f, fast, j, tC, t0, wC, w0, hasFileWatcher, bC, rC, b0, r0, callsC, c0)
  {
    if w1 != wA {
      WatchPush(wA, c, fs);
    }
    WatchExtendsTrans(wA, w1, wC, fs);
    WatchExtendsTrans(w0, wA, wC, fs);
    ScanAddsStep(e, be, rank, f, fast, i, c, w0, b0, c0, wA, bA, rA, callsA, w1, wC, bC, rC, callsC);
    ScanTreeStep(e, rank, f, i, c, tA, tC, t0);
    ScanCoverStep(e, be, rank, f, i, c, hasFileWatcher, wA, bA, rA, wC, bC, rC);
    ScanKidsStep(e, rank, f, i, c, !fast && hasFileWatcher, wA, w1, wC);
  }

  /** The bound on what the scan of `f` added grows by `c`, when the scan
      is not fast, and by what the scan of `c` may add. */
  lemma ScanAddsStep(e: Edges, be: map<string, seq<Option<string>>>, rank: map<string, nat>, f: string, fast: bool,
                     i: nat, c: string, w0: seq<string>, b0: bool, c0: seq<CitationCall>,
                     wA: seq<string>, bA: bool, rA: string, callsA: seq<CitationCall>, w1: seq<string>,
                     wC: seq<string>, bC: bool, rC: string, callsC: seq<CitationCall>)
    requires EdgesRanked(e, rank) && f in rank && f in e && i < |e[f]| && e[f][i] == Some(c) && c in rank
    requires |w0| <= |wA| &&
      AddsOnly(w0, wA, b0, bA, rA, c0, callsA, ProgressAdds(e, be, rank, f, fast, i), ScanBibs(be, ReachUpTo(e, rank, f, i)))
    requires w1 == wA || (!fast && w1 == wA + [c])
    requires |w1| <= |wC| && wC[..|w1|] == w1
    requires AddsOnly(w1, wC, bA, bC, rC, callsA, callsC, ScanAdds(e, be, Reach(e, rank, c)), ScanBibs(be, Reach(e, rank, c)))
    requires BibStable(bA, rA, bC, rC)
    ensures AddsOnly(w0, wC, b0, bC, rC, c0, callsC, ProgressAdds(e, be, rank, f, fast, i + 1),
      ScanBibs(be, ReachUpTo(e, rank, f, i + 1)))
  {
    var s, sc := ReachUpTo(e, rank, f, i), Reach(e, rank, c);
    assert ReachUpTo(e, rank, f, i + 1) == s + sc;
    assert KidsUpTo(e, f, i + 1) == KidsUpTo(e, f, i) + {c};
    var a := ProgressAdds(e, be, rank, f, fast, i + 1);
    var bibs := ScanBibs(be, s + sc);
    ScanAddsMono(e, be, s, s + sc);
    ScanAddsMono(e, be, sc, s + sc);
    var pushed: set<string> := if w1 == wA then {} else {c};
    if w1 == wA {
      AddsNothing(wA, bA, rA, callsA, pushed, {});
    } else {
      assert callsA[..|callsA|] == callsA && w1[..|wA|] == wA;
    }
    AddsOnlyTrans(w0, wA, w1, b0, bA, rA, bA, rA, c0, callsA, callsA,
      ProgressAdds(e, be, rank, f, fast, i), ScanBibs(be, s), pushed, {}, a, bibs);
    AddsOnlyTrans(w0, w1, wC, b0, bA, rA, bC, rC, c0, callsA, callsC, a, bibs, ScanAdds(e, be, sc), ScanBibs(be, sc), a, bibs);
  }

  /** Scanning more files may add more. */
  lemma ScanAddsMono(e: Edges, be: map<string, seq<Option<string>>>, s1: set<string>, s2: set<string>)
    requires s1 <= s2
    ensures ScanAdds(e, be, s1) <= ScanAdds(e, be, s2) && ScanBibs(be, s1) <= ScanBibs(be, s2)
  {
  }

  /** The children and bibliography files of `f` are among what a scan
      reaching `f` may add. */
  lemma ScanAddsOwn(e: Edges, be: map<string, seq<Option<string>>>, s: set<string>, f: string)
    requires f in s && f in e && f in be
    ensures ScanAdds(e, be, s - {f}) + Kids(e, f) + BibFiles(be[f]) <= ScanAdds(e, be, s)
    ensures ScanBibs(be, s - {f}) + BibFiles(be[f]) <= ScanBibs(be, s)
  {
    ScanAddsMono(e, be, s - {f}, s);
  }

  lemma ScanTreeStep(e: Edges, rank: map<string, nat>, f: string, i: nat, c: string, tA: Tree, tC: Tree, t0: Tree)
    requires EdgesRanked(e, rank) && f in rank && f in e && i < |e[f]| && e[f][i] == Some(c) && c in rank
    requires tA[f := KidsUpTo(e, f, i)] == tA && TreeScanned(tA, t0, e, f, ReachUpTo(e, rank, f, i))
    requires TreeScanned(tC, tA[f := tA[f] + {c}], e, c, Reach(e, rank, c))
    ensures tC[f := KidsUpTo(e, f, i + 1)] == tC
    ensures TreeScanned(tC, t0, e, f, ReachUpTo(e, rank, f, i + 1))
  {
    var s := ReachUpTo(e, rank, f, i);
    var sc := Reach(e, rank, c);
    assert ReachUpTo(e, rank, f, i + 1) == s + sc;
    assert KidsUpTo(e, f, i + 1) == KidsUpTo(e, f, i) + {c};
    forall x | x in sc ensures x != f {
      ReachBound(e, rank, c, x);
    }
    forall x | x in s ensures x != f {
      ReachUpToBound(e, rank, f, i, x);
    }
    TreeCompose(tA, tC, t0, e, f, s, c, sc);
  }

  lemma ScanCoverStep(e: Edges, be: map<string, seq<Option<string>>>, rank: map<string, nat>, f: string, i: nat,
                      c: string, hasFileWatcher: bool, wA: seq<string>, bA: bool, rA: string,
                      wC: seq<string>, bC: bool, rC: string)
    requires EdgesRanked(e, rank) && f in rank && f in e && i < |e[f]| && e[f][i] == Some(c) && c in rank
    requires AllCovered(e, be, ReachUpTo(e, rank, f, i), wA, hasFileWatcher, bA, rA)
    requires AllCovered(e, be, Reach(e, rank, c), wC, hasFileWatcher, bC, rC)
    requires (forall y :: y in wA ==> y in wC) && BibStable(bA, rA, bC, rC)
    ensures AllCovered(e, be, ReachUpTo(e, rank, f, i + 1), wC, hasFileWatcher, bC, rC)
  {
    assert ReachUpTo(e, rank, f, i + 1) == ReachUpTo(e, rank, f, i) + Reach(e, rank, c);
    AllCoveredUnion(e, be, ReachUpTo(e, rank, f, i), Reach(e, rank, c), wA, wC, hasFileWatcher, bA, rA, bC, rC);
  }

  lemma ScanKidsStep(e: Edges, rank: map<string, nat>, f: string, i: nat, c: string, watching: bool,
                     wA: seq<string>, w1: seq<string>, wC: seq<string>)
    requires EdgesRanked(e, rank) && f in rank && f in e && i < |e[f]| && e[f][i] == Some(c)
    requires watching ==> forall k :: k in KidsUpTo(e, f, i) ==> k in wA
    requires watching ==> c in w1
    requires (forall y :: y in wA ==> y in wC) && (forall y :: y in w1 ==> y in wC)
    ensures c in KidsUpTo(e, f, i + 1)
    ensures watching ==> forall k :: k in KidsUpTo(e, f, i + 1) ==> k in wC
  {
    assert KidsUpTo(e, f, i + 1) == KidsUpTo(e, f, i) + {c};
  }

  /** Once every directive is handled, the state of the scan of `f` is
      the one `findDependentFiles` promises, before its bibliography step. */
  lemma ScanDone(fs: FileSystem, e: Edges, be: map<string, seq<Option<string>>>, rank: map<string, nat>, f: string,
                 fast: bool, tree: Tree, t0: Tree, watched: seq<string>, w0: seq<string>, hasFileWatcher: bool,
                 hasBibWatcher: bool, bibWatcherRoot: string, b0: bool, r0: string,
                 calls: seq<CitationCall>, c0: seq<CitationCall>, progress: bool)
    requires EdgesRanked(e, rank) && f in rank && f in e && f in be
    requires progress == ScanProgress(fs, e, be, rank, f, fast, |e[f]|, tree, t0, watched, w0, hasFileWatcher,
                                      hasBibWatcher, bibWatcherRoot, b0, r0, calls, c0)
    requires progress
    ensures TreeScanned(tree, t0, e, f, Reach(e, rank, f))
    ensures AllCovered(e, be, Reach(e, rank, f) - {f}, watched, hasFileWatcher, hasBibWatcher, bibWatcherRoot)
    ensures !fast && hasFileWatcher ==> forall c :: c in Kids(e, f) ==> c in watched
    ensures fast && Kids(e, f) == {} ==>
      (watched == w0 && hasBibWatcher == b0 && bibWatcherRoot == r0 && calls == c0)
    ensures TreeRanked(tree, rank) && WatchExtends(w0, watched, fs) && BibStable(b0, r0, hasBibWatcher, bibWatcherRoot)
    ensures AddsOnly(w0, watched, b0, hasBibWatcher, bibWatcherRoot, c0, calls,
      ScanAdds(e, be, Reach(e, rank, f) - {f}) + (if fast then {} else Kids(e, f)), ScanBibs(be, Reach(e, rank, f) - {f}))
  {
    var s := ReachUpTo(e, rank, f, |e[f]|);
    forall x | x in s ensures x != f {
      ReachUpToBound(e, rank, f, |e[f]|, x);
    }
    assert Reach(e, rank, f) - {f} == s;
  }

  /** After the bibliography step of a non-fast scan of `f`, every file
      the scan visited is covered, `f` included. */
  lemma ScanFinish(fs: FileSystem, e: Edges, be: map<string, seq<Option<string>>>, rank: map<string, nat>, f: string,
                   hasFileWatcher: bool, wMid: seq<string>, bMid: bool, rMid: string,
                   watched: seq<string>, hasBibWatcher: bool, bibWatcherRoot: string)
    requires EdgesRanked(e, rank) && f in rank && f in e && f in be
    requires AllCovered(e, be, Reach(e, rank, f) - {f}, wMid, hasFileWatcher, bMid, rMid)
    requires hasFileWatcher ==> forall c :: c in Kids(e, f) ==> c in wMid
    requires forall k :: 0 <= k < |be[f]| ==> BibWatched(be[f][k], watched, hasBibWatcher, bibWatcherRoot)
    requires WatchExtends(wMid, watched, fs) && BibStable(bMid, rMid, hasBibWatcher, bibWatcherRoot)
    ensures AllCovered(e, be, Reach(e, rank, f), watched, hasFileWatcher, hasBibWatcher, bibWatcherRoot)
  {
    WatchExtendsTrans(wMid, watched, watched, fs);
    AllCoveredGrows(e, be, Reach(e, rank, f) - {f}, wMid, watched, hasFileWatcher, bMid, rMid,
      hasBibWatcher, bibWatcherRoot);
    assert Covered(e, be, f, watched, hasFileWatcher, hasBibWatcher, bibWatcherRoot);
  }

  /** After `findAllDependentFiles` scanned a root, `updateRootOfFiles`
      from that root descends through exactly what the scan reached. */
  lemma RootScanReach(fs: FileSystem, rank: map<string, nat>, tree: Tree, t0: Tree, root: string)
    requires TreeRanked(tree, rank) && root in rank
    requires var e := ResolvedEdges(fs, Dirname(root));
      EdgesRanked(e, rank) && TreeScanned(tree, t0, e, root, Reach(e, rank, root))
    ensures TreeReach(tree, rank, root) == Reach(ResolvedEdges(fs, Dirname(root)), rank, root)
  {
    var e := ResolvedEdges(fs, Dirname(root));
    ScannedReach(fs, e, rank, tree, root, root);
  }

  lemma UpdateTwice(m: map<string, string>, k: string, v1: string, v2: string)
    ensures m[k := v1][k := v2] == m[k := v2]
  {
  }

  /** `m` with every path of `s` mapped to `v`. */
  function Assigned(m: map<string, string>, s: set<string>, v: string): (r: map<string, string>)
    ensures r.Keys == m.Keys + s
  {
    map x | x in m.Keys + s :: if x in s then v else m[x]
  }

  /** Assigning the same root twice is assigning it to the union. */
  lemma AssignedTwice(m: map<string, string>, s1: set<string>, s2: set<string>, v: string)
    ensures Assigned(Assigned(m, s1, v), s2, v) == Assigned(m, s1 + s2, v)
  {
  }

  /** What `updateRootOfFiles` reaches through the children in `done`. */
  ghost function ReachedThrough(tree: Tree, rank: map<string, nat>, done: set<string>): set<string>
    requires TreeRanked(tree, rank)
  {
    set c, x | c in done && x in TreeReach(tree, rank, c) :: x
  }

  lemma ReachedThroughNone(tree: Tree, rank: map<string, nat>)
    requires TreeRanked(tree, rank)
    ensures ReachedThrough(tree, rank, {}) == {}
  {
  }

  lemma ReachedThroughAdd(tree: Tree, rank: map<string, nat>, done: set<string>, c: string)
    requires TreeRanked(tree, rank)
    ensures ReachedThrough(tree, rank, done + {c}) == ReachedThrough(tree, rank, done) + TreeReach(tree, rank, c)
  {
  }

  lemma TreeReachUnfold(tree: Tree, rank: map<string, nat>, g: string)
    requires TreeRanked(tree, rank) && g in tree
    ensures TreeReach(tree, rank, g) == {g} + ReachedThrough(tree, rank, tree[g])
  {
  }

  lemma AssignedOne(m: map<string, string>, x: string, v: string)
    ensures m[x := v] == Assigned(m, {x}, v)
  {
  }

  lemma AssignedNone(m: map<string, string>, v: string)
    ensures Assigned(m, {}, v) == m
  {
  }

  /** `updateWorkspace`'s choice: the workspace folder of the active
      editor when there is one, otherwise the workspace's root path; an
      absent or empty path means no workspace (""). */
  function WorkspaceOf(host: Host): (w: string)
    ensures host.active.Some? && host.activeFolder.Some? ==> w == host.activeFolder.value
    ensures (host.active.None? || host.activeFolder.None?) ==>
      w == if host.rootPath.Some? then host.rootPath.value else ""
  {
    var wsroot := if host.active.Some? && host.activeFolder.Some? then host.activeFolder else host.rootPath;
    if wsroot.Some? && wsroot.value != "" then wsroot.value else ""
  }

  /** The value the `rootFile` getter answers: the root recorded for the
      active file when there is one, otherwise the root chosen for the
      workspace, if any. */
  function RootFileValue(rootFiles: map<string, string>, rootOfFiles: map<string, string>, workspace: string,
                         active: Option<ActiveDoc>): (r: Option<string>)
    ensures DocumentRoot(rootOfFiles, active).Some? ==> r == DocumentRoot(rootOfFiles, active)
    ensures DocumentRoot(rootOfFiles, active).None? ==> (r.Some? <==> workspace in rootFiles)
    ensures DocumentRoot(rootOfFiles, active).None? && r.Some? ==> r.value == rootFiles[workspace]
  {
    var d := DocumentRoot(rootOfFiles, active);
    if d.Some? then d else if workspace in rootFiles then Some(rootFiles[workspace]) else None
  }

  /** Whether `findRoot` gets as far as the directory scan: no magic
      comment, no `\begin{document}` in the active file, no root recorded
      for it, and a workspace open. */
  predicate ReachesDirScan(host: Host, rootOfFiles: map<string, string>) {
    && FindRootMagic(host.active).None? && FindRootSelf(host.active).None?
    && DocumentRoot(rootOfFiles, host.active).None? && WorkspaceOf(host) != ""
  }

  /** The root `findRoot` settles on: the first of the magic comment, the
      active file itself, the root recorded for the active file and (with a
      workspace open) the directory scan that answers. */
  ghost function ChosenRoot(fs: FileSystem, rank: map<string, nat>, host: Host, rootOfFiles: map<string, string>)
    : (r: Option<string>)
    requires ReachesDirScan(host, rootOfFiles) ==> CandidatesRanked(fs, rank, host.active, host.texFiles)
    ensures FindRootMagic(host.active).Some? ==> r == FindRootMagic(host.active)
    ensures r.None? ==>
      FindRootMagic(host.active).None? && FindRootSelf(host.active).None? && DocumentRoot(rootOfFiles, host.active).None?
  {
    if FindRootMagic(host.active).Some? then FindRootMagic(host.active)
    else if FindRootSelf(host.active).Some? then FindRootSelf(host.active)
    else if DocumentRoot(rootOfFiles, host.active).Some? then DocumentRoot(rootOfFiles, host.active)
    else if WorkspaceOf(host) == "" then None
    else DirStrategy(fs, rank, host.active, host.texFiles)
  }

  /** Every bibliography file the globs match, glob by glob. */
  function GlobMatches(globs: seq<seq<string>>): (r: seq<string>)
    ensures |r| == 0 <==> forall g :: 0 <= g < |globs| ==> globs[g] == []
  {
    if globs == [] then [] else globs[0] + GlobMatches(globs[1..])
  }

  /** What `findAllDependentFiles(root)` leaves in the watch state `s0`.
      When a watcher lists `root`, nothing changes. Otherwise a watcher for
      `root`, whose list is `root` after the old list (no watcher before)
      or alone (the old watcher closed). When `root` can be read, the scan
      of `root` against its own directory then recorded and watched
      everything it reaches; when it cannot, the read throws before
      anything else changes. */
  ghost predicate RootWatched(fs: FileSystem, rank: map<string, nat>, root: string, s0: Watching, s: Watching) {
    if s0.hasFileWatcher && root in s0.watched then
      s == s0
    else
      var e := ResolvedEdges(fs, Dirname(root));
      var base := (if s0.hasFileWatcher then [] else s0.watched) + [root];
      && s.hasFileWatcher && s.fileWatcherRoot == root
      && WatchExtends(base, s.watched, fs)
      && (root in fs.files ==>
            root in rank && EdgesRanked(e, rank) &&
            TreeScanned(s.tree, s0.tree, e, root, Reach(e, rank, root)) &&
            AllCovered(e, ResolvedBibs(fs, Dirname(root)), Reach(e, rank, root), s.watched, true,
              s.hasBibWatcher, s.bibWatcherRoot) &&
            AddsOnly(base, s.watched, s0.hasBibWatcher, s.hasBibWatcher, s.bibWatcherRoot, s0.calls, s.calls,
              ScanAdds(e, ResolvedBibs(fs, Dirname(root)), Reach(e, rank, root)),
              ScanBibs(ResolvedBibs(fs, Dirname(root)), Reach(e, rank, root))))
      && (root !in fs.files ==> s == s0.(watched := base, hasFileWatcher := true, fileWatcherRoot := root))
  }

  /** The state after `findRoot` switched to the new root `root`, from the
      watch state `s0` and maps `rootFiles0`, `rootOfFiles0`.
      `findAllDependentFiles` rescans when no watcher lists `root` (see
      `RootWatched`); that read throws when `root` does not exist.
      Otherwise every file below `root` in the tree is assigned to it,
      which after a rescan is exactly what the scan reached. */
  ghost predicate Switched(fs: FileSystem, host: Host, root: string, rank: map<string, nat>, s0: Watching,
                           rootFiles0: map<string, string>, rootOfFiles0: map<string, string>,
                           outcome: FindRootOutcome, globsPending: bool, s: Watching,
                           rootFiles: map<string, string>, rootOfFiles: map<string, string>, workspace: string)
    requires TreeRanked(s.tree, rank)
  {
    var scans := !s0.hasFileWatcher || root !in s0.watched;
    var d := DocumentRoot(rootOfFiles0, host.active);
    && RootWatched(fs, rank, root, s0, s)
    && outcome == (if scans && root !in fs.files then Threw(root) else Found(root))
    && (globsPending <==> scans && root in fs.files && host.bibGlobs != [])
    && rootFiles == rootFiles0[workspace := if globsPending && d.Some? then d.value else root]
    && (outcome.Threw? ==> rootOfFiles == rootOfFiles0)
    && (outcome.Found? ==> rootOfFiles == Assigned(rootOfFiles0, TreeReach(s.tree, rank, root), root))
    && (outcome.Found? && scans ==>
          var e := ResolvedEdges(fs, Dirname(root));
          root in rank && EdgesRanked(e, rank) && rootOfFiles == Assigned(rootOfFiles0, Reach(e, rank, root), root))
  }

  class Manager {
    /** `texFileTree`: each scanned file with the children its last scan recorded. */
    var texFileTree: Tree
    /** `watched`: the paths added to either watcher, in order of addition. */
    var watched: seq<string>
    /** `rootFiles`: the root file chosen for each workspace. */
    var rootFiles: map<string, string>
    /** `rootOfFiles`: the root each file was last found to belong to. */
    var rootOfFiles: map<string, string>
    var workspace: string
    /** Whether `fileWatcher` is defined, and the root it was created for
        (the `rootFile` its `unlink` handler compares against). */
    var hasFileWatcher: bool
    var fileWatcherRoot: string
    /** Whether `bibWatcher` is defined, and the file it was created for. */
    var hasBibWatcher: bool
    var bibWatcherRoot: string
    /** The requests made of the citation completer, oldest first. */
    ghost var citationCalls: seq<CitationCall>

    /** The watch state as one value (see `Watching`). */
    ghost function Watch(): Watching
      reads this`texFileTree, this`watched, this`hasFileWatcher, this`fileWatcherRoot, this`hasBibWatcher,
        this`bibWatcherRoot, this`citationCalls
    {
      Watching(texFileTree, watched, hasFileWatcher, fileWatcherRoot, hasBibWatcher, bibWatcherRoot, citationCalls)
    }

    constructor ()
      ensures texFileTree == map[] && watched == [] && rootFiles == map[] && rootOfFiles == map[]
      ensures workspace == "" && !hasFileWatcher && !hasBibWatcher && citationCalls == []
    {
      texFileTree := map[];
      watched := [];
      rootFiles := map[];
      rootOfFiles := map[];
      workspace := "";
      hasFileWatcher := false;
      fileWatcherRoot := "";
      hasBibWatcher := false;
      bibWatcherRoot := "";
      citationCalls := [];
    }

    /** `addBibToWatcher`: the first bibliography file that exists creates
        the bibliography watcher (without entering the list); later ones
        are added to the watcher and the list unless already listed. Each
        newly watched file is parsed for citations. */
    method AddBibToWatcher(fs: FileSystem, bib: string, rootDir: string)
      modifies this`watched, this`hasBibWatcher, this`bibWatcherRoot, this`citationCalls
      ensures WatchedBib(ResolveBib(fs, rootDir, bib), old(watched), old(hasBibWatcher), old(bibWatcherRoot), old(citationCalls),
        watched, hasBibWatcher, bibWatcherRoot, citationCalls)
      ensures BibWatched(ResolveBib(fs, rootDir, bib), watched, hasBibWatcher, bibWatcherRoot)
      ensures NoDup(old(watched)) ==> NoDup(watched)
    {
      var r := ResolveBib(fs, rootDir, bib);
      WatchBibPath(r);
    }

    /** What `addBibToWatcher` does once the path is resolved. */
    method WatchBibPath(r: Option<string>)
      modifies this`watched, this`hasBibWatcher, this`bibWatcherRoot, this`citationCalls
      ensures WatchedBib(r, old(watched), old(hasBibWatcher), old(bibWatcherRoot), old(citationCalls),
        watched, hasBibWatcher, bibWatcherRoot, citationCalls)
      ensures BibWatched(r, watched, hasBibWatcher, bibWatcherRoot)
      ensures NoDup(old(watched)) ==> NoDup(watched)
    {
      if r.Some? {
        var bibPath := r.value;
        if !hasBibWatcher {
          hasBibWatcher := true;
          bibWatcherRoot := bibPath;
          citationCalls := citationCalls + [ParseBib(bibPath)];
        } else if IndexOf(watched, bibPath) < 0 {
          watched := watched + [bibPath];
          citationCalls := citationCalls + [ParseBib(bibPath)];
        }
      }
    }

    /** `findDependentFiles(filePath, rootDir, fast)`: read `filePath`
        (failing, with nothing changed, when it does not exist), record the
        files its directives resolve to against the scan directory, watch
        each new one, scan each in turn, then watch the bibliography files
        its directives name. A fast scan skips the watching and the
        bibliography step for `filePath` itself only: the nested scans are
        started without `fast`. There is no guard against circular
        inclusion, so the scan is only modelled on an acyclic graph: `e` is
        the graph the scan explores and `be` the bibliography files each
        file names, both resolved against the scan directory. */
    method FindDependentFiles(fs: FileSystem, filePath: string, rootDir: string, fast: bool,
                              ghost e: Edges, ghost be: map<string, seq<Option<string>>>,
                              ghost rank: map<string, nat>) returns (ok: bool)
      requires Resolves(fs, ScanDir(filePath, rootDir), e) && BibsResolve(fs, ScanDir(filePath, rootDir), be)
      requires filePath in fs.files ==> EdgesRanked(e, rank) && filePath in rank
      requires TreeRanked(texFileTree, rank)
      modifies this`texFileTree, this`watched, this`hasBibWatcher, this`bibWatcherRoot, this`citationCalls
      decreases if filePath in rank then rank[filePath] else 0, 6
      ensures hasFileWatcher == old(hasFileWatcher)
      ensures ok <==> filePath in fs.files
      ensures !ok ==> (texFileTree == old(texFileTree) && watched == old(watched) &&
        hasBibWatcher == old(hasBibWatcher) && bibWatcherRoot == old(bibWatcherRoot) &&
        citationCalls == old(citationCalls))
      ensures ok ==> TreeScanned(texFileTree, old(texFileTree), e, filePath, Reach(e, rank, filePath))
      ensures ok && fast ==>
        AllCovered(e, be, Reach(e, rank, filePath) - {filePath}, watched, hasFileWatcher, hasBibWatcher, bibWatcherRoot)
      ensures ok && !fast ==>
        AllCovered(e, be, Reach(e, rank, filePath), watched, hasFileWatcher, hasBibWatcher, bibWatcherRoot)
      ensures ok && fast && Kids(e, filePath) == {} ==>
        (watched == old(watched) && hasBibWatcher == old(hasBibWatcher) &&
         bibWatcherRoot == old(bibWatcherRoot) && citationCalls == old(citationCalls))
      ensures ok && fast ==>
        AddsOnly(old(watched), watched, old(hasBibWatcher), hasBibWatcher, bibWatcherRoot, old(citationCalls),
          citationCalls, ScanAdds(e, be, Reach(e, rank, filePath) - {filePath}),
          ScanBibs(be, Reach(e, rank, filePath) - {filePath}))
      ensures ok && !fast ==>
        AddsOnly(old(watched), watched, old(hasBibWatcher), hasBibWatcher, bibWatcherRoot, old(citationCalls),
          citationCalls, ScanAdds(e, be, Reach(e, rank, filePath)), ScanBibs(be, Reach(e, rank, filePath)))
      ensures TreeRanked(texFileTree, rank)
      ensures WatchExtends(old(watched), watched, fs)
      ensures BibStable(old(hasBibWatcher), old(bibWatcherRoot), hasBibWatcher, bibWatcherRoot)
    {
      if filePath !in fs.files {
        return false;
      }
      var dir := ScanDir(filePath, rootDir);
      if fast {
        ScanTree(fs, filePath, dir, true, e, be, rank);
      } else {
        ScanWithBibs(fs, filePath, dir, e, be, rank);
      }
      return true;
    }

    /** A scan of an existing file that is not fast: its tree, then its
        own bibliography files. */
    method ScanWithBibs(fs: FileSystem, filePath: string, dir: string,
                        ghost e: Edges, ghost be: map<string, seq<Option<string>>>, ghost rank: map<string, nat>)
      requires dir != "" && Resolves(fs, dir, e) && BibsResolve(fs, dir, be)
      requires filePath in fs.files && EdgesRanked(e, rank) && filePath in rank
      requires TreeRanked(texFileTree, rank)
      modifies this`texFileTree, this`watched, this`hasBibWatcher, this`bibWatcherRoot, this`citationCalls
      decreases rank[filePath], 5
      ensures TreeScanned(texFileTree, old(texFileTree), e, filePath, Reach(e, rank, filePath))
      ensures AllCovered(e, be, Reach(e, rank, filePath), watched, hasFileWatcher, hasBibWatcher, bibWatcherRoot)
      ensures AddsOnly(old(watched), watched, old(hasBibWatcher), hasBibWatcher, bibWatcherRoot, old(citationCalls),
        citationCalls, ScanAdds(e, be, Reach(e, rank, filePath)), ScanBibs(be, Reach(e, rank, filePath)))
      ensures TreeRanked(texFileTree, rank)
      ensures WatchExtends(old(watched), watched, fs)
      ensures BibStable(old(hasBibWatcher), old(bibWatcherRoot), hasBibWatcher, bibWatcherRoot)
    {
      ScanTree(fs, filePath, dir, false, e, be, rank);
      ghost var wMid, bMid, rMid, cMid := watched, hasBibWatcher, bibWatcherRoot, citationCalls;
      WatchOwnBibs(fs, filePath, dir, e, be, rank);
      WatchExtendsTrans(old(watched), wMid, watched, fs);
      ghost var reach := Reach(e, rank, filePath);
      ScanAddsOwn(e, be, reach, filePath);
      AddsOnlyTrans(old(watched), wMid, watched, old(hasBibWatcher), bMid, rMid, hasBibWatcher, bibWatcherRoot,
        old(citationCalls), cMid, citationCalls, ScanAdds(e, be, reach - {filePath}) + Kids(e, filePath),
        ScanBibs(be, reach - {filePath}), BibFiles(be[filePath]), BibFiles(be[filePath]),
        ScanAdds(e, be, reach), ScanBibs(be, reach));
    }

    /** `findDependentFiles` on an existing file, up to its own
        bibliography: the entry of `filePath` is reset and its inclusion
        directives are followed. */
    method ScanTree(fs: FileSystem, filePath: string, dir: string, fast: bool,
                    ghost e: Edges, ghost be: map<string, seq<Option<string>>>, ghost rank: map<string, nat>)
      requires dir != "" && Resolves(fs, dir, e) && BibsResolve(fs, dir, be)
      requires filePath in fs.files && EdgesRanked(e, rank) && filePath in rank
      requires TreeRanked(texFileTree, rank)
      modifies this`texFileTree, this`watched, this`hasBibWatcher, this`bibWatcherRoot, this`citationCalls
      decreases rank[filePath], 4
      ensures TreeScanned(texFileTree, old(texFileTree), e, filePath, Reach(e, rank, filePath))
      ensures AllCovered(e, be, Reach(e, rank, filePath) - {filePath}, watched, hasFileWatcher, hasBibWatcher,
                         bibWatcherRoot)
      ensures !fast && hasFileWatcher ==> forall c :: c in Kids(e, filePath) ==> c in watched
      ensures fast && Kids(e, filePath) == {} ==>
        (watched == old(watched) && hasBibWatcher == old(hasBibWatcher) &&
         bibWatcherRoot == old(bibWatcherRoot) && citationCalls == old(citationCalls))
      ensures TreeRanked(texFileTree, rank)
      ensures WatchExtends(old(watched), watched, fs)
      ensures BibStable(old(hasBibWatcher), old(bibWatcherRoot), hasBibWatcher, bibWatcherRoot)
      ensures AddsOnly(old(watched), watched, old(hasBibWatcher), hasBibWatcher, bibWatcherRoot, old(citationCalls),
        citationCalls, ScanAdds(e, be, Reach(e, rank, filePath) - {filePath}) + (if fast then {} else Kids(e, filePath)),
        ScanBibs(be, Reach(e, rank, filePath) - {filePath}))
    {
      ScanStart(fs, e, be, rank, filePath, fast, texFileTree, watched, hasFileWatcher, hasBibWatcher, bibWatcherRoot,
        citationCalls);
      texFileTree := texFileTree[filePath := {}];
      ghost var started := ScanProgress(fs, e, be, rank, filePath, fast, 0, texFileTree, old(texFileTree), watched,
        old(watched), hasFileWatcher, hasBibWatcher, bibWatcherRoot, old(hasBibWatcher), old(bibWatcherRoot),
        citationCalls, old(citationCalls));
      ScanInputs(fs, filePath, dir, fast, e, be, rank, old(texFileTree), old(watched), old(hasBibWatcher),
        old(bibWatcherRoot), old(citationCalls), started);
      ghost var finished := ScanProgress(fs, e, be, rank, filePath, fast, |e[filePath]|, texFileTree, old(texFileTree),
        watched, old(watched), hasFileWatcher, hasBibWatcher, bibWatcherRoot, old(hasBibWatcher),
        old(bibWatcherRoot), citationCalls, old(citationCalls));
      ScanDone(fs, e, be, rank, filePath, fast, texFileTree, old(texFileTree), watched, old(watched), hasFileWatcher,
        hasBibWatcher, bibWatcherRoot, old(hasBibWatcher), old(bibWatcherRoot), citationCalls, old(citationCalls),
        finished);
    }

    /** The end of a full `findDependentFiles` scan: the file's own
        bibliography commands go to `addBibToWatcher`, after which everything
        reachable from `filePath` is covered. */
    method WatchOwnBibs(fs: FileSystem, filePath: string, dir: string,
                        ghost e: Edges, ghost be: map<string, seq<Option<string>>>, ghost rank: map<string, nat>)
      requires BibsResolve(fs, dir, be) && filePath in fs.files
      requires EdgesRanked(e, rank) && filePath in rank && filePath in e && filePath in be
      requires AllCovered(e, be, Reach(e, rank, filePath) - {filePath}, watched, hasFileWatcher, hasBibWatcher,
                          bibWatcherRoot)
      requires hasFileWatcher ==> forall c :: c in Kids(e, filePath) ==> c in watched
      modifies this`watched, this`hasBibWatcher, this`bibWatcherRoot, this`citationCalls
      ensures AllCovered(e, be, Reach(e, rank, filePath), watched, hasFileWatcher, hasBibWatcher, bibWatcherRoot)
      ensures WatchExtends(old(watched), watched, fs)
      ensures BibStable(old(hasBibWatcher), old(bibWatcherRoot), hasBibWatcher, bibWatcherRoot)
      ensures AddsOnly(old(watched), watched, old(hasBibWatcher), hasBibWatcher, bibWatcherRoot, old(citationCalls),
        citationCalls, BibFiles(be[filePath]), BibFiles(be[filePath]))
    {
      WatchBibs(fs, dir, filePath, be);
      ScanFinish(fs, e, be, rank, filePath, hasFileWatcher, old(watched), old(hasBibWatcher), old(bibWatcherRoot),
        watched, hasBibWatcher, bibWatcherRoot);
    }

    /** The directive loop of `findDependentFiles` for `filePath`, whose
        entry in the tree has just been reset. */
    method ScanInputs(fs: FileSystem, filePath: string, dir: string, fast: bool,
                      ghost e: Edges, ghost be: map<string, seq<Option<string>>>, ghost rank: map<string, nat>,
                      ghost t0: Tree, ghost w0: seq<string>, ghost b0: bool, ghost r0: string, ghost c0: seq<CitationCall>,
                      ghost progress: bool)
      requires dir != "" && Resolves(fs, dir, e) && BibsResolve(fs, dir, be)
      requires filePath in fs.files && EdgesRanked(e, rank) && filePath in rank
      requires progress == ScanProgress(fs, e, be, rank, filePath, fast, 0, texFileTree, t0, watched, w0,
        hasFileWatcher, hasBibWatcher, bibWatcherRoot, b0, r0, citationCalls, c0)
      requires progress
      modifies this`texFileTree, this`watched, this`hasBibWatcher, this`bibWatcherRoot, this`citationCalls
      decreases rank[filePath], 3
      ensures filePath in e && ScanProgress(fs, e, be, rank, filePath, fast, |e[filePath]|, texFileTree, t0, watched, w0,
        hasFileWatcher, hasBibWatcher, bibWatcherRoot, b0, r0, citationCalls, c0)
    {
      var content := fs.files[filePath];
      var i := 0;
      while i < |content.inputs|
        invariant 0 <= i <= |content.inputs| == |e[filePath]|
        invariant ScanProgress(fs, e, be, rank, filePath, fast, i, texFileTree, t0, watched, w0,
          hasFileWatcher, hasBibWatcher, bibWatcherRoot, b0, r0, citationCalls, c0)
      {
        ghost var stepped;
        i, stepped := ScanInput(fs, filePath, dir, fast, i, e, be, rank, t0, w0, b0, r0, c0);
      }
    }

    /** One turn of the directive loop of `findDependentFiles`: resolve the
        `i`-th directive of `filePath`; when it names an existing file,
        record it as a child, watch it (unless the scan is fast or it is
        already listed) and scan it, against the same directory and never
        fast. */
    method ScanInput(fs: FileSystem, filePath: string, dir: string, fast: bool, i: nat,
                     ghost e: Edges, ghost be: map<string, seq<Option<string>>>, ghost rank: map<string, nat>,
                     ghost t0: Tree, ghost w0: seq<string>, ghost b0: bool, ghost r0: string, ghost c0: seq<CitationCall>)
      returns (next: nat, ghost stepped: bool)
      requires dir != "" && Resolves(fs, dir, e) && BibsResolve(fs, dir, be)
      requires filePath in fs.files && EdgesRanked(e, rank) && filePath in rank
      requires i < |fs.files[filePath].inputs| == |e[filePath]|
      requires ScanProgress(fs, e, be, rank, filePath, fast, i, texFileTree, t0, watched, w0,
        hasFileWatcher, hasBibWatcher, bibWatcherRoot, b0, r0, citationCalls, c0)
      modifies this`texFileTree, this`watched, this`hasBibWatcher, this`bibWatcherRoot, this`citationCalls
      decreases rank[filePath], 2
      ensures next == i + 1
      ensures stepped == ScanProgress(fs, e, be, rank, filePath, fast, next, texFileTree, t0, watched, w0,
        hasFileWatcher, hasBibWatcher, bibWatcherRoot, b0, r0, citationCalls, c0)
      ensures stepped
    {
      next := i + 1;
      var r := ResolveInputAt(fs, dir, filePath, i, e);
      ghost var progress := ScanProgress(fs, e, be, rank, filePath, fast, i, texFileTree, t0, watched, w0,
        hasFileWatcher, hasBibWatcher, bibWatcherRoot, b0, r0, citationCalls, c0);
      if r.None? {
        ScanStepNone(fs, e, be, rank, filePath, fast, i, next, texFileTree, t0, watched, w0, hasFileWatcher,
          hasBibWatcher, bibWatcherRoot, b0, r0, citationCalls, c0, progress);
        stepped := true;
        return;
      }
      ScanChild(fs, filePath, dir, fast, i, r.value, e, be, rank, t0, w0, b0, r0, c0, progress);
      stepped := true;
    }

    /** The turn of the directive loop whose directive names the existing
        file `c`. */
    method ScanChild(fs: FileSystem, filePath: string, dir: string, fast: bool, i: nat, c: string,
                     ghost e: Edges, ghost be: map<string, seq<Option<string>>>, ghost rank: map<string, nat>,
                     ghost t0: Tree, ghost w0: seq<string>, ghost b0: bool, ghost r0: string, ghost c0: seq<CitationCall>,
                     ghost progress: bool)
      requires dir != "" && Resolves(fs, dir, e) && BibsResolve(fs, dir, be)
      requires filePath in fs.files && EdgesRanked(e, rank) && filePath in rank
      requires i < |e[filePath]| && e[filePath][i] == Some(c) && c in e
      requires progress == ScanProgress(fs, e, be, rank, filePath, fast, i, texFileTree, t0, watched, w0,
        hasFileWatcher, hasBibWatcher, bibWatcherRoot, b0, r0, citationCalls, c0)
      requires progress
      modifies this`texFileTree, this`watched, this`hasBibWatcher, this`bibWatcherRoot, this`citationCalls
      decreases rank[filePath], 1
      ensures ScanProgress(fs, e, be, rank, filePath, fast, i + 1, texFileTree, t0, watched, w0,
        hasFileWatcher, hasBibWatcher, bibWatcherRoot, b0, r0, citationCalls, c0)
    {
      ghost var tA, wA, bA, rA, callsA := texFileTree, watched, hasBibWatcher, bibWatcherRoot, citationCalls;
      EdgeRanked(e, rank, filePath, i);
      RecordChild(filePath, c, fast, rank);
      ScanRecorded(fs, filePath, dir, fast, i, c, e, be, rank, t0, w0, b0, r0, c0, tA, wA, bA, rA, callsA, progress);
    }

    /** The rest of that turn, once `c` is recorded (in the tree entry
        `tA`, list `wA`, watcher `(bA, rA)` and requests `callsA` of the
        turn's start): the nested scan of `c`. */
    method ScanRecorded(fs: FileSystem, filePath: string, dir: string, fast: bool, i: nat, c: string,
                        ghost e: Edges, ghost be: map<string, seq<Option<string>>>, ghost rank: map<string, nat>,
                        ghost t0: Tree, ghost w0: seq<string>, ghost b0: bool, ghost r0: string, ghost c0: seq<CitationCall>,
                        ghost tA: Tree, ghost wA: seq<string>, ghost bA: bool, ghost rA: string,
                        ghost callsA: seq<CitationCall>, ghost progress: bool)
      requires dir != "" && Resolves(fs, dir, e) && BibsResolve(fs, dir, be)
      requires filePath in fs.files && EdgesRanked(e, rank) && filePath in rank
      requires i < |e[filePath]| && e[filePath][i] == Some(c) && c in e && c in rank && rank[c] < rank[filePath]
      requires progress == ScanProgress(fs, e, be, rank, filePath, fast, i, tA, t0, wA, w0,
        hasFileWatcher, bA, rA, b0, r0, callsA, c0)
      requires progress
      requires filePath in tA && texFileTree == tA[filePath := tA[filePath] + {c}] && TreeRanked(texFileTree, rank)
      requires watched == if !fast && hasFileWatcher && c !in wA then wA + [c] else wA
      requires hasBibWatcher == bA && bibWatcherRoot == rA && citationCalls == callsA
      modifies this`texFileTree, this`watched, this`hasBibWatcher, this`bibWatcherRoot, this`citationCalls
      decreases rank[filePath], 0
      ensures ScanProgress(fs, e, be, rank, filePath, fast, i + 1, texFileTree, t0, watched, w0,
        hasFileWatcher, hasBibWatcher, bibWatcherRoot, b0, r0, citationCalls, c0)
    {
      ghost var w1 := watched;
      ghost var nested := ScanNested(fs, c, dir, e, be, rank);
      ScanStepSome(fs, e, be, rank, filePath, fast, i, i + 1, c, hasFileWatcher,
        tA, wA, bA, rA, callsA, w1, texFileTree, watched, hasBibWatcher, bibWatcherRoot, citationCalls,
        t0, w0, b0, r0, c0, progress, nested);
    }

    /** The nested scan of the child `c`: never fast, against the same
        directory. */
    method ScanNested(fs: FileSystem, c: string, dir: string,
                      ghost e: Edges, ghost be: map<string, seq<Option<string>>>, ghost rank: map<string, nat>)
      returns (ghost nested: bool)
      requires dir != "" && Resolves(fs, dir, e) && BibsResolve(fs, dir, be)
      requires c in fs.files && c in e && EdgesRanked(e, rank) && c in rank
      requires TreeRanked(texFileTree, rank)
      modifies this`texFileTree, this`watched, this`hasBibWatcher, this`bibWatcherRoot, this`citationCalls
      decreases rank[c], 7
      ensures hasFileWatcher == old(hasFileWatcher)
      ensures nested == FullScan(fs, e, be, rank, c, old(texFileTree), old(watched), old(hasBibWatcher),
        old(bibWatcherRoot), old(citationCalls), texFileTree, watched, hasFileWatcher, hasBibWatcher, bibWatcherRoot,
        citationCalls)
      ensures nested
    {
      var _ := FindDependentFiles(fs, c, dir, false, e, be, rank);
      nested := FullScan(fs, e, be, rank, c, old(texFileTree), old(watched), old(hasBibWatcher), old(bibWatcherRoot),
        old(citationCalls), texFileTree, watched, hasFileWatcher, hasBibWatcher, bibWatcherRoot, citationCalls);
    }

    /** Record `c` as a child of `f` and, unless the scan is fast, watch it
        when it is not listed yet. */
    method RecordChild(f: string, c: string, fast: bool, ghost rank: map<string, nat>)
      requires f in texFileTree && TreeRanked(texFileTree, rank) && f in rank && c in rank && rank[c] < rank[f]
      modifies this`texFileTree, this`watched
      ensures hasFileWatcher == old(hasFileWatcher)
      ensures texFileTree == old(texFileTree)[f := old(texFileTree)[f] + {c}]
      ensures watched == if !fast && hasFileWatcher && c !in old(watched) then old(watched) + [c] else old(watched)
      ensures TreeRanked(texFileTree, rank)
    {
      TreeRankedAdd(texFileTree, rank, f, c);
      texFileTree := texFileTree[f := texFileTree[f] + {c}];
      if !fast && hasFileWatcher && IndexOf(watched, c) < 0 {
        watched := watched + [c];
      }
    }

    /** The resolution of the `i`-th directive of `g`, as the scan graph
        records it. */
    static method ResolveInputAt(fs: FileSystem, dir: string, g: string, i: nat, ghost e: Edges) returns (r: Option<string>)
      requires Resolves(fs, dir, e)
      requires g in fs.files && i < |fs.files[g].inputs|
      ensures g in e && i < |e[g]| && r == e[g][i]
      ensures r.Some? ==> r.value in e
    {
      r := ResolveInput(fs, dir, fs.files[g].inputs[i]);
    }

    /** The resolution of the `k`-th bibliography name of `g`. */
    static method ResolveBibAt(fs: FileSystem, dir: string, g: string, k: nat, ghost be: map<string, seq<Option<string>>>)
      returns (r: Option<string>)
      requires BibsResolve(fs, dir, be)
      requires g in fs.files && k < |BibNames(fs.files[g].bibs)|
      ensures g in be && k < |be[g]| && r == be[g][k]
      ensures r.Some? ==> r.value in fs.files
    {
      r := ResolveBib(fs, dir, BibNames(fs.files[g].bibs)[k]);
    }

    /** The bibliography step of `findDependentFiles` for `g`:
        `addBibToWatcher` for every name its directives list, in order. */
    method WatchBibs(fs: FileSystem, dir: string, g: string, ghost be: map<string, seq<Option<string>>>)
      requires BibsResolve(fs, dir, be) && g in fs.files
      modifies this`watched, this`hasBibWatcher, this`bibWatcherRoot, this`citationCalls
      ensures g in be && forall k :: 0 <= k < |be[g]| ==> BibWatched(be[g][k], watched, hasBibWatcher, bibWatcherRoot)
      ensures WatchExtends(old(watched), watched, fs)
      ensures BibStable(old(hasBibWatcher), old(bibWatcherRoot), hasBibWatcher, bibWatcherRoot)
      ensures AddsOnly(old(watched), watched, old(hasBibWatcher), hasBibWatcher, bibWatcherRoot, old(citationCalls),
        citationCalls, BibFiles(be[g]), BibFiles(be[g]))
    {
      var names := BibNames(fs.files[g].bibs);
      var j := 0;
      BibLoopStart(fs, be[g], watched, hasBibWatcher, bibWatcherRoot, citationCalls);
      while j < |names|
        invariant 0 <= j <= |names| == |be[g]|
        invariant BibLoop(fs, be[g], j, old(watched), old(hasBibWatcher), old(bibWatcherRoot), old(citationCalls),
          watched, hasBibWatcher, bibWatcherRoot, citationCalls)
      {
        ghost var wj, bj, rj, cj := watched, hasBibWatcher, bibWatcherRoot, citationCalls;
        var r := ResolveBibAt(fs, dir, g, j, be);
        WatchBibPath(r);
        BibLoopStep(fs, be[g], j, old(watched), old(hasBibWatcher), old(bibWatcherRoot), old(citationCalls),
          wj, bj, rj, cj, watched, hasBibWatcher, bibWatcherRoot, citationCalls);
        j := j + 1;
      }
    }

    /** The descent of `isRoot(root, file)` through the recorded tree (the
        part after the optional rescan). The children of `root` are tried in
        any order: the walk changes nothing, so the order cannot matter. */
    method IsRootWalk(fs: FileSystem, root: string, file: string, ghost rank: map<string, nat>) returns (b: bool)
      requires TreeRanked(texFileTree, rank)
      decreases if root in rank then rank[root] else 0
      ensures b == IsRoot(fs, texFileTree, rank, root, file)
    {
      if root !in fs.files {
        return false;
      }
      if root == file {
        return true;
      }
      if root !in texFileTree || file !in texFileTree {
        return false;
      }
      var rest := texFileTree[root];
      while rest != {}
        invariant rest <= texFileTree[root]
        invariant forall r :: r in texFileTree[root] && r !in rest ==> !IsRoot(fs, texFileTree, rank, r, file)
        decreases |rest|
      {
        var r :| r in rest;
        var found := IsRootWalk(fs, r, file, rank);
        if found {
          return true;
        }
        rest := rest - {r};
      }
      return false;
    }

    /** `isRoot(root, file, updateDependent)`: a missing `root` is no root;
        a file is its own root; otherwise, after an optional fast rescan of
        `root` against its own directory, `root` is a root of `file` when
        the tree leads from it to `file`. With the rescan, the answer is
        whether `file` is reachable from `root` in the inclusion graph. */
    method IsRootCheck(fs: FileSystem, root: string, file: string, updateDependent: bool, ghost rank: map<string, nat>)
      returns (b: bool)
      requires TreeRanked(texFileTree, rank)
      requires updateDependent && root in fs.files && root != file ==> FsRanked(fs, Dirname(root), rank) && root in rank
      modifies this`texFileTree, this`watched, this`hasBibWatcher, this`bibWatcherRoot, this`citationCalls
      ensures !updateDependent ==> b == IsRoot(fs, old(texFileTree), rank, root, file)
      ensures !updateDependent || root !in fs.files || root == file ==>
        (texFileTree == old(texFileTree) && watched == old(watched) && hasBibWatcher == old(hasBibWatcher) &&
         bibWatcherRoot == old(bibWatcherRoot) && citationCalls == old(citationCalls))
      ensures updateDependent ==>
        (b <==> root in fs.files && (root == file || file in Reach(ResolvedEdges(fs, Dirname(root)), rank, root)))
      ensures updateDependent && root in fs.files && root != file ==>
        var e := ResolvedEdges(fs, Dirname(root));
        && EdgesRanked(e, rank) && root in rank
        && TreeScanned(texFileTree, old(texFileTree), e, root, Reach(e, rank, root))
        && AllCovered(e, ResolvedBibs(fs, Dirname(root)), Reach(e, rank, root) - {root}, watched, hasFileWatcher,
             hasBibWatcher, bibWatcherRoot)
        && AddsOnly(old(watched), watched, old(hasBibWatcher), hasBibWatcher, bibWatcherRoot, old(citationCalls),
             citationCalls, ScanAdds(e, ResolvedBibs(fs, Dirname(root)), Reach(e, rank, root) - {root}),
             ScanBibs(ResolvedBibs(fs, Dirname(root)), Reach(e, rank, root) - {root}))
      ensures TreeRanked(texFileTree, rank)
      ensures WatchExtends(old(watched), watched, fs)
      ensures BibStable(old(hasBibWatcher), old(bibWatcherRoot), hasBibWatcher, bibWatcherRoot)
    {
      if root !in fs.files {
        return false;
      }
      if root == file {
        return true;
      }
      if updateDependent {
        ghost var e := ResolvedEdges(fs, Dirname(root));
        ghost var be := ResolvedBibs(fs, Dirname(root));
        ResolvedEdgesResolves(fs, Dirname(root), e);
        ResolvedBibsResolve(fs, Dirname(root));
        assert ScanDir(root, "") == Dirname(root);
        var _ := FindDependentFiles(fs, root, "", true, e, be, rank);
        IsRootAfterScan(fs, e, rank, texFileTree, root, file);
      }
      b := IsRootWalk(fs, root, file, rank);
    }

    /** `updateRootOfFiles(root, file)`: record `root` as the root of
        `file` and, recursively, of everything below it in the tree; a file
        without an entry stops the descent. */
    method UpdateRootOfFiles(root: string, file: string, ghost rank: map<string, nat>)
      requires TreeRanked(texFileTree, rank)
      modifies this`rootOfFiles
      decreases if file in rank then rank[file] else 0, 1
      ensures rootOfFiles == Assigned(old(rootOfFiles), TreeReach(texFileTree, rank, file), root)
    {
      if file !in texFileTree {
        AssignedNone(rootOfFiles, root);
        return;
      }
      AssignedOne(rootOfFiles, file, root);
      rootOfFiles := rootOfFiles[file := root];
      UpdateRootOfChildren(root, file, rank);
      AssignedTwice(old(rootOfFiles), {file}, ReachedThrough(texFileTree, rank, texFileTree[file]), root);
      TreeReachUnfold(texFileTree, rank, file);
    }

    /** The loop of `updateRootOfFiles` over the children of `file`; each
        child's descent assigns the same root, so their order cannot
        matter. */
    method UpdateRootOfChildren(root: string, file: string, ghost rank: map<string, nat>)
      requires TreeRanked(texFileTree, rank) && file in texFileTree
      modifies this`rootOfFiles
      decreases rank[file], 0
      ensures rootOfFiles == Assigned(old(rootOfFiles), ReachedThrough(texFileTree, rank, texFileTree[file]), root)
    {
      ReachedThroughNone(texFileTree, rank);
      AssignedNone(rootOfFiles, root);
      var rest := texFileTree[file];
      ghost var done: set<string> := {};
      ghost var reached: set<string> := {};
      while rest != {}
        invariant done + rest == texFileTree[file] && done !! rest
        invariant reached == ReachedThrough(texFileTree, rank, done)
        invariant rootOfFiles == Assigned(old(rootOfFiles), reached, root)
        decreases |rest|
      {
        var c :| c in rest;
        UpdateRootOfFiles(root, c, rank);
        AssignedTwice(old(rootOfFiles), reached, TreeReach(texFileTree, rank, c), root);
        ReachedThroughAdd(texFileTree, rank, done, c);
        reached := reached + TreeReach(texFileTree, rank, c);
        done := done + {c};
        rest := rest - {c};
      }
    }

    /** `findRootDir`: with a workspace open, try the workspace's .tex
        files in order; the first that contains `\begin{document}` and is a
        root of the active file (after a fast rescan) is the root. A file
        that cannot be read ends the search with no root. */
    method FindRootDir(fs: FileSystem, host: Host, ghost rank: map<string, nat>) returns (r: Option<string>)
      requires TreeRanked(texFileTree, rank)
      requires workspace != "" ==> CandidatesRanked(fs, rank, host.active, host.texFiles)
      modifies this`texFileTree, this`watched, this`hasBibWatcher, this`bibWatcherRoot, this`citationCalls
      ensures workspace == "" ==>
        (r.None? && texFileTree == old(texFileTree) && watched == old(watched) &&
         hasBibWatcher == old(hasBibWatcher) && bibWatcherRoot == old(bibWatcherRoot) &&
         citationCalls == old(citationCalls))
      ensures workspace != "" ==> r == DirStrategy(fs, rank, host.active, host.texFiles)
      ensures TreeRanked(texFileTree, rank)
      ensures WatchExtends(old(watched), watched, fs)
      ensures BibStable(old(hasBibWatcher), old(bibWatcherRoot), hasBibWatcher, bibWatcherRoot)
    {
      if workspace == "" {
        return None;
      }
      var cands := host.texFiles;
      var k := 0;
      assert cands[k..] == cands;
      while k < |cands|
        invariant k <= |cands|
        invariant TreeRanked(texFileTree, rank)
        invariant CandidatesRanked(fs, rank, host.active, cands[k..])
        invariant DirStrategy(fs, rank, host.active, cands) == DirStrategy(fs, rank, host.active, cands[k..])
        invariant WatchExtends(old(watched), watched, fs)
        invariant BibStable(old(hasBibWatcher), old(bibWatcherRoot), hasBibWatcher, bibWatcherRoot)
      {
        var u := cands[k];
        DirStrategyAt(fs, rank, host.active, cands, k);
        if u !in fs.files {
          return None;
        }
        ghost var wk := watched;
        if fs.files[u].beginsDocument && host.active.Some? {
          var b := IsRootCheck(fs, u, host.active.value.fileName, true, rank);
          WatchExtendsTrans(old(watched), wk, watched, fs);
          if b {
            return Some(u);
          }
        }
        k := k + 1;
      }
      return None;
    }

    /** The `rootFile` getter. Reading it has a side effect: a root
        recorded for the active file becomes the workspace's root file. */
    method GetRootFile(active: Option<ActiveDoc>) returns (r: Option<string>)
      modifies this`rootFiles
      ensures r == RootFileValue(old(rootFiles), rootOfFiles, workspace, active)
      ensures DocumentRoot(rootOfFiles, active).Some? ==> rootFiles == old(rootFiles)[workspace := r.value]
      ensures DocumentRoot(rootOfFiles, active).None? ==> rootFiles == old(rootFiles)
    {
      var root := DocumentRoot(rootOfFiles, active);
      if root.Some? {
        rootFiles := rootFiles[workspace := root.value];
        return root;
      }
      if workspace in rootFiles {
        return Some(rootFiles[workspace]);
      }
      return None;
    }

    /** The `rootFile` setter: the root file of the current workspace. */
    method SetRootFile(root: string)
      modifies this`rootFiles
      ensures rootFiles == old(rootFiles)[workspace := root]
      ensures RootFileValue(rootFiles, rootOfFiles, workspace, None) == Some(root)
    {
      rootFiles := rootFiles[workspace := root];
    }

    /** The `rootDir` getter: the directory of the root file; with no root
        file `path.dirname(undefined)` throws, modelled as `None`. */
    method GetRootDir(active: Option<ActiveDoc>) returns (r: Option<string>)
      modifies this`rootFiles
      ensures r.None? <==> RootFileValue(old(rootFiles), rootOfFiles, workspace, active).None?
      ensures r.Some? ==> r.value == Dirname(RootFileValue(old(rootFiles), rootOfFiles, workspace, active).value)
      ensures DocumentRoot(rootOfFiles, active).Some? ==>
        rootFiles == old(rootFiles)[workspace := DocumentRoot(rootOfFiles, active).value]
      ensures DocumentRoot(rootOfFiles, active).None? ==> rootFiles == old(rootFiles)
    {
      var root := GetRootFile(active);
      if root.None? {
        return None;
      }
      return Some(Dirname(root.value));
    }

    /** `updateWorkspace`. Refreshing the structure view when the workspace
        changes is not modelled. */
    method UpdateWorkspace(host: Host)
      modifies this`workspace
      ensures workspace == WorkspaceOf(host)
    {
      var wsroot := host.rootPath;
      if host.active.Some? {
        if host.activeFolder.Some? {
          wsroot := host.activeFolder;
        }
      }
      if wsroot.Some? && wsroot.value != "" {
        if wsroot.value != workspace {
          workspace := wsroot.value;
        }
      } else {
        workspace := "";
      }
    }

    /** The synchronous part of `findAllDependentFiles(rootFile)`. A file
        watcher whose list lacks `rootFile` is closed and the list emptied;
        then, unless a watcher remains, a new one is created for `rootFile`,
        `rootFile` is pushed on the list and scanned (against its own
        directory, not fast). `created` tells whether the new watcher was
        created, which is when the glob callbacks for the additional
        bibliography files are registered; `ok` is false when the scan
        throws because `rootFile` cannot be read. */
    method FindAllDependentFiles(fs: FileSystem, rootFile: string, ghost rank: map<string, nat>)
      returns (created: bool, ok: bool, ghost e: Edges, ghost be: map<string, seq<Option<string>>>)
      requires TreeRanked(texFileTree, rank)
      requires rootFile in fs.files ==> FsRanked(fs, Dirname(rootFile), rank) && rootFile in rank
      modifies this`texFileTree, this`watched, this`hasFileWatcher, this`fileWatcherRoot, this`hasBibWatcher,
        this`bibWatcherRoot, this`citationCalls
      ensures created <==> !old(hasFileWatcher) || rootFile !in old(watched)
      ensures ok <==> !created || rootFile in fs.files
      ensures !created ==> (texFileTree == old(texFileTree) && watched == old(watched) &&
        hasFileWatcher && fileWatcherRoot == old(fileWatcherRoot) && hasBibWatcher == old(hasBibWatcher) &&
        bibWatcherRoot == old(bibWatcherRoot) && citationCalls == old(citationCalls))
      ensures created ==> hasFileWatcher && fileWatcherRoot == rootFile
      ensures created ==> WatchExtends((if old(hasFileWatcher) then [] else old(watched)) + [rootFile], watched, fs)
      ensures created ==> (NoDup(watched) <==> old(hasFileWatcher) || (NoDup(old(watched)) && rootFile !in old(watched)))
      ensures Resolves(fs, Dirname(rootFile), e) && BibsResolve(fs, Dirname(rootFile), be)
      ensures created && ok ==>
        EdgesRanked(e, rank) && rootFile in rank &&
        TreeScanned(texFileTree, old(texFileTree), e, rootFile, Reach(e, rank, rootFile)) &&
        AllCovered(e, be, Reach(e, rank, rootFile), watched, true, hasBibWatcher, bibWatcherRoot) &&
        AddsOnly((if old(hasFileWatcher) then [] else old(watched)) + [rootFile], watched, old(hasBibWatcher),
          hasBibWatcher, bibWatcherRoot, old(citationCalls), citationCalls, ScanAdds(e, be, Reach(e, rank, rootFile)),
          ScanBibs(be, Reach(e, rank, rootFile)))
      ensures created && !ok ==>
        (texFileTree == old(texFileTree) && watched == (if old(hasFileWatcher) then [] else old(watched)) + [rootFile] &&
         hasBibWatcher == old(hasBibWatcher) && bibWatcherRoot == old(bibWatcherRoot) &&
         citationCalls == old(citationCalls))
      ensures TreeRanked(texFileTree, rank)
      ensures BibStable(old(hasBibWatcher), old(bibWatcherRoot), hasBibWatcher, bibWatcherRoot)
    {
      var prevWatcherClosed := false;
      if hasFileWatcher && IndexOf(watched, rootFile) < 0 {
        watched := [];
        prevWatcherClosed := true;
      }
      e := ResolvedEdges(fs, Dirname(rootFile));
      be := ResolvedBibs(fs, Dirname(rootFile));
      ResolvedEdgesResolves(fs, Dirname(rootFile), e);
      ResolvedBibsResolve(fs, Dirname(rootFile));
      if prevWatcherClosed || !hasFileWatcher {
        hasFileWatcher := true;
        fileWatcherRoot := rootFile;
        watched := watched + [rootFile];
        assert ScanDir(rootFile, "") == Dirname(rootFile);
        ok := FindDependentFiles(fs, rootFile, "", false, e, be, rank);
        created := true;
        RootPushNoDup(old(watched), old(hasFileWatcher), rootFile, watched, fs);
        return;
      }
      created, ok := false, true;
    }

    /** The glob callbacks of `findAllDependentFiles`: every additional
        bibliography file is added with `addBibToWatcher` against the root
        directory `rootDir`; `rs` is what each resolves to. */
    method WatchAdditionalBibs(fs: FileSystem, rootDir: string, bibs: seq<string>, ghost rs: seq<Option<string>>)
      requires BibListResolves(fs, rootDir, bibs, rs)
      modifies this`watched, this`hasBibWatcher, this`bibWatcherRoot, this`citationCalls
      ensures forall k :: 0 <= k < |rs| ==> BibWatched(rs[k], watched, hasBibWatcher, bibWatcherRoot)
      ensures WatchExtends(old(watched), watched, fs)
      ensures BibStable(old(hasBibWatcher), old(bibWatcherRoot), hasBibWatcher, bibWatcherRoot)
      ensures AddsOnly(old(watched), watched, old(hasBibWatcher), hasBibWatcher, bibWatcherRoot, old(citationCalls),
        citationCalls, BibFiles(rs), BibFiles(rs))
    {
      var j := 0;
      BibLoopStart(fs, rs, watched, hasBibWatcher, bibWatcherRoot, citationCalls);
      while j < |bibs|
        invariant 0 <= j <= |bibs| == |rs|
        invariant BibLoop(fs, rs, j, old(watched), old(hasBibWatcher), old(bibWatcherRoot), old(citationCalls),
          watched, hasBibWatcher, bibWatcherRoot, citationCalls)
      {
        ghost var wj, bj, rj, cj := watched, hasBibWatcher, bibWatcherRoot, citationCalls;
        var r := ResolveBibOf(fs, rootDir, bibs, j, rs);
        WatchBibPath(r);
        BibLoopStep(fs, rs, j, old(watched), old(hasBibWatcher), old(bibWatcherRoot), old(citationCalls),
          wj, bj, rj, cj, watched, hasBibWatcher, bibWatcherRoot, citationCalls);
        j := j + 1;
      }
    }

    /** The resolution `addBibToWatcher` makes of the `j`-th name. */
    static method ResolveBibOf(fs: FileSystem, rootDir: string, bibs: seq<string>, j: nat, ghost rs: seq<Option<string>>)
      returns (r: Option<string>)
      requires BibListResolves(fs, rootDir, bibs, rs) && j < |bibs|
      ensures r == rs[j]
      ensures r.Some? ==> r.value in fs.files
    {
      r := ResolveBib(fs, rootDir, bibs[j]);
    }

    /** The strategies of `findRoot`, tried in order: the magic comment,
        the active file itself, the root recorded for the active file
        (`findRootSaved`), and the directory scan. */
    method ChooseRoot(fs: FileSystem, host: Host, ghost rank: map<string, nat>) returns (r: Option<string>)
      requires TreeRanked(texFileTree, rank)
      requires ReachesDirScan(host, rootOfFiles) ==> CandidatesRanked(fs, rank, host.active, host.texFiles)
      requires workspace == WorkspaceOf(host)
      modifies this`texFileTree, this`watched, this`hasBibWatcher, this`bibWatcherRoot, this`citationCalls
      ensures r == ChosenRoot(fs, rank, host, rootOfFiles)
      ensures !ReachesDirScan(host, rootOfFiles) ==>
        (texFileTree == old(texFileTree) && watched == old(watched) &&
         hasBibWatcher == old(hasBibWatcher) && bibWatcherRoot == old(bibWatcherRoot) &&
         citationCalls == old(citationCalls))
      ensures TreeRanked(texFileTree, rank)
      ensures WatchExtends(old(watched), watched, fs)
      ensures BibStable(old(hasBibWatcher), old(bibWatcherRoot), hasBibWatcher, bibWatcherRoot)
    {
      r := FindRootMagic(host.active);
      if r.None? {
        r := FindRootSelf(host.active);
      }
      if r.None? {
        r := DocumentRoot(rootOfFiles, host.active);
      }
      if r.None? {
        r := FindRootDir(fs, host, rank);
      }
    }

    /** What `findRoot` does with the root a strategy found: when the
        `rootFile` getter already answers it nothing changes; otherwise it
        becomes the workspace's root file and `SwitchRoot` follows. */
    method AdoptRoot(fs: FileSystem, host: Host, root: string, ghost rank: map<string, nat>)
      returns (outcome: FindRootOutcome, changed: bool, globsPending: bool)
      requires TreeRanked(texFileTree, rank) && RootRanked(fs, rank, root)
      modifies this`texFileTree, this`watched, this`rootFiles, this`rootOfFiles, this`hasFileWatcher,
        this`fileWatcherRoot, this`hasBibWatcher, this`bibWatcherRoot, this`citationCalls
      ensures TreeRanked(texFileTree, rank)
      ensures changed <==> RootFileValue(old(rootFiles), old(rootOfFiles), workspace, host.active) != Some(root)
      ensures !changed ==>
        (outcome == Found(root) && !globsPending && rootFiles == old(rootFiles)[workspace := root] &&
         Watch() == old(Watch()) && rootOfFiles == old(rootOfFiles))
      ensures changed ==> Switched(fs, host, root, rank, old(Watch()), old(rootFiles), old(rootOfFiles), outcome,
        globsPending, Watch(), rootFiles, rootOfFiles, workspace)
      ensures BibStable(old(hasBibWatcher), old(bibWatcherRoot), hasBibWatcher, bibWatcherRoot)
    {
      var current := GetRootFile(host.active);
      if current == Some(root) {
        return Found(root), false, false;
      }
      SetRootFile(root);
      assert Watch() == old(Watch());
      outcome, globsPending := SwitchRoot(fs, host, root, rank, old(rootFiles));
      changed := true;
    }

    /** A changed root: `findAllDependentFiles` runs (its read of the root
        may throw) and every file below the root in the tree is assigned to
        it. When the glob callbacks are registered their `cwd` option reads
        the `rootFile` getter, which may write the root recorded for the
        active file back as the workspace's root file before
        `updateRootOfFiles` runs. */
    method SwitchRoot(fs: FileSystem, host: Host, root: string, ghost rank: map<string, nat>,
                      ghost rootFiles0: map<string, string>)
      returns (outcome: FindRootOutcome, globsPending: bool)
      requires TreeRanked(texFileTree, rank) && RootRanked(fs, rank, root)
      requires rootFiles == rootFiles0[workspace := root]
      modifies this`texFileTree, this`watched, this`rootFiles, this`rootOfFiles, this`hasFileWatcher,
        this`fileWatcherRoot, this`hasBibWatcher, this`bibWatcherRoot, this`citationCalls
      ensures TreeRanked(texFileTree, rank)
      ensures Switched(fs, host, root, rank, old(Watch()), rootFiles0, old(rootOfFiles), outcome, globsPending,
        Watch(), rootFiles, rootOfFiles, workspace)
      ensures BibStable(old(hasBibWatcher), old(bibWatcherRoot), hasBibWatcher, bibWatcherRoot)
    {
      var created, ok := WatchRoot(fs, root, rank);
      if created && !ok {
        return Threw(root), false;
      }
      ghost var s := Watch();
      globsPending := created && host.bibGlobs != [];
      RegisterBibGlobs(host, globsPending, rootFiles0, root);
      UpdateRootOfFiles(root, root, rank);
      assert Watch() == s;
      if created {
        RootScanReach(fs, rank, texFileTree, old(texFileTree), root);
      }
      outcome := Found(root);
    }

    /** Registering the glob callbacks reads the `rootFile` getter for
        their `cwd` option, once per glob; after the first read the getter
        writes nothing new. */
    method RegisterBibGlobs(host: Host, registering: bool, ghost rootFiles0: map<string, string>, ghost root: string)
      requires rootFiles == rootFiles0[workspace := root]
      modifies this`rootFiles
      ensures var d := DocumentRoot(rootOfFiles, host.active);
        rootFiles == rootFiles0[workspace := if registering && d.Some? then d.value else root]
    {
      if registering {
        var _ := GetRootFile(host.active);
        UpdateTwice(rootFiles0, workspace, root, rootFiles[workspace]);
      }
    }

    /** `findAllDependentFiles` as `findRoot` relies on it: whether the
        watcher was created and the scan succeeded, and the watcher and the
        scan it made (`RootWatched`). */
    method WatchRoot(fs: FileSystem, root: string, ghost rank: map<string, nat>) returns (created: bool, ok: bool)
      requires TreeRanked(texFileTree, rank) && RootRanked(fs, rank, root)
      modifies this`texFileTree, this`watched, this`hasFileWatcher, this`fileWatcherRoot, this`hasBibWatcher,
        this`bibWatcherRoot, this`citationCalls
      ensures created <==> !old(hasFileWatcher) || root !in old(watched)
      ensures ok <==> !created || root in fs.files
      ensures hasFileWatcher
      ensures RootWatched(fs, rank, root, old(Watch()), Watch())
      ensures TreeRanked(texFileTree, rank)
      ensures BibStable(old(hasBibWatcher), old(bibWatcherRoot), hasBibWatcher, bibWatcherRoot)
    {
      ghost var e, be;
      created, ok, e, be := FindAllDependentFiles(fs, root, rank);
      if created {
        ResolvedEdgesResolves(fs, Dirname(root), e);
        ResolvedBibsUnique(fs, Dirname(root), be);
      }
    }

    /** `findRoot`: refresh the workspace, settle on a root and adopt it.
        `s1` is the watch state the strategies left (the directory scan's
        fast rescans may change it); `globsPending`
        tells whether glob callbacks for the additional bibliography files
        were left to run (see `RunBibGlobs`). */
    method FindRoot(fs: FileSystem, host: Host, ghost rank: map<string, nat>)
      returns (outcome: FindRootOutcome, changed: bool, globsPending: bool, ghost s1: Watching)
      requires TreeRanked(texFileTree, rank)
      requires ReachesDirScan(host, rootOfFiles) ==> CandidatesRanked(fs, rank, host.active, host.texFiles)
      requires var r := ChosenRoot(fs, rank, host, rootOfFiles); r.Some? ==> RootRanked(fs, rank, r.value)
      modifies this`workspace, this`texFileTree, this`watched, this`rootFiles, this`rootOfFiles,
        this`hasFileWatcher, this`fileWatcherRoot, this`hasBibWatcher, this`bibWatcherRoot, this`citationCalls
      ensures TreeRanked(texFileTree, rank)
      ensures workspace == WorkspaceOf(host)
      ensures outcome.NotFound? <==> ChosenRoot(fs, rank, host, old(rootOfFiles)).None?
      ensures !outcome.NotFound? ==> outcome.root == ChosenRoot(fs, rank, host, old(rootOfFiles)).value
      ensures changed <==>
        !outcome.NotFound? && RootFileValue(old(rootFiles), old(rootOfFiles), workspace, host.active) != Some(outcome.root)
      ensures TreeRanked(s1.tree, rank) && WatchExtends(old(watched), s1.watched, fs)
      ensures BibStable(old(hasBibWatcher), old(bibWatcherRoot), s1.hasBibWatcher, s1.bibWatcherRoot)
      ensures s1.hasFileWatcher == old(hasFileWatcher) && s1.fileWatcherRoot == old(fileWatcherRoot)
      ensures !ReachesDirScan(host, old(rootOfFiles)) ==> s1 == old(Watch())
      ensures !changed ==>
        (Watch() == s1 && rootOfFiles == old(rootOfFiles) && !globsPending &&
         rootFiles == if outcome.NotFound? then old(rootFiles) else old(rootFiles)[workspace := outcome.root])
      ensures changed ==> Switched(fs, host, outcome.root, rank, s1, old(rootFiles), old(rootOfFiles), outcome,
        globsPending, Watch(), rootFiles, rootOfFiles, workspace)
    {
      UpdateWorkspace(host);
      var root := ChooseRoot(fs, host, rank);
      s1 := Watch();
      if root.None? {
        return NotFound, false, false, s1;
      }
      assert rootFiles == old(rootFiles) && rootOfFiles == old(rootOfFiles);
      outcome, changed, globsPending := AdoptRoot(fs, host, root.value, rank);
    }

    /** The glob callbacks `findAllDependentFiles` registered, once the
        globs have matched: every matched file goes to `addBibToWatcher`
        against the directory the `rootDir` getter answers. Without a root
        file that getter throws and nothing is watched. */
    method RunBibGlobs(fs: FileSystem, host: Host)
      modifies this`rootFiles, this`watched, this`hasBibWatcher, this`bibWatcherRoot, this`citationCalls
      ensures var bibs := GlobMatches(host.bibGlobs);
        var root := RootFileValue(old(rootFiles), rootOfFiles, workspace, host.active);
        bibs != [] && root.Some? ==>
          forall k :: 0 <= k < |bibs| ==>
            BibWatched(ResolveBibAll(fs, Dirname(root.value), bibs)[k], watched, hasBibWatcher, bibWatcherRoot)
      ensures var bibs := GlobMatches(host.bibGlobs);
        var root := RootFileValue(old(rootFiles), rootOfFiles, workspace, host.active);
        var found := BibFiles(if bibs != [] && root.Some? then ResolveBibAll(fs, Dirname(root.value), bibs) else []);
        AddsOnly(old(watched), watched, old(hasBibWatcher), hasBibWatcher, bibWatcherRoot, old(citationCalls),
          citationCalls, found, found)
      ensures var d := DocumentRoot(rootOfFiles, host.active);
        rootFiles == if GlobMatches(host.bibGlobs) != [] && d.Some? then old(rootFiles)[workspace := d.value]
                     else old(rootFiles)
      ensures GlobMatches(host.bibGlobs) == [] || RootFileValue(old(rootFiles), rootOfFiles, workspace, host.active).None? ==>
        (watched == old(watched) && hasBibWatcher == old(hasBibWatcher) && bibWatcherRoot == old(bibWatcherRoot) &&
         citationCalls == old(citationCalls))
      ensures WatchExtends(old(watched), watched, fs)
      ensures BibStable(old(hasBibWatcher), old(bibWatcherRoot), hasBibWatcher, bibWatcherRoot)
    {
      var bibs := GlobMatches(host.bibGlobs);
      if bibs == [] {
        WatchExtendsRefl(watched, fs);
        AddsNothing(watched, hasBibWatcher, bibWatcherRoot, citationCalls, BibFiles([]), BibFiles([]));
        return;
      }
      var dir := GetRootDir(host.active);
      if dir.None? {
        WatchExtendsRefl(watched, fs);
        AddsNothing(watched, hasBibWatcher, bibWatcherRoot, citationCalls, BibFiles([]), BibFiles([]));
        return;
      }
      ResolveBibAllResolves(fs, dir.value, bibs);
      WatchAdditionalBibs(fs, dir.value, bibs, ResolveBibAll(fs, dir.value, bibs));
    }

    /** The file watcher's `change` handler: rescan the changed file
        against its own directory. */
    method OnTexChange(fs: FileSystem, filePath: string, ghost rank: map<string, nat>) returns (ok: bool)
      requires TreeRanked(texFileTree, rank)
      requires filePath in fs.files ==> FsRanked(fs, Dirname(filePath), rank) && filePath in rank
      modifies this`texFileTree, this`watched, this`hasBibWatcher, this`bibWatcherRoot, this`citationCalls
      ensures ok <==> filePath in fs.files
      ensures ok ==>
        var e := ResolvedEdges(fs, Dirname(filePath));
        EdgesRanked(e, rank) &&
        TreeScanned(texFileTree, old(texFileTree), e, filePath, Reach(e, rank, filePath)) &&
        AllCovered(e, ResolvedBibs(fs, Dirname(filePath)), Reach(e, rank, filePath), watched, hasFileWatcher,
          hasBibWatcher, bibWatcherRoot) &&
        AddsOnly(old(watched), watched, old(hasBibWatcher), hasBibWatcher, bibWatcherRoot, old(citationCalls),
          citationCalls, ScanAdds(e, ResolvedBibs(fs, Dirname(filePath)), Reach(e, rank, filePath)),
          ScanBibs(ResolvedBibs(fs, Dirname(filePath)), Reach(e, rank, filePath)))
      ensures !ok ==> (texFileTree == old(texFileTree) && watched == old(watched) &&
        hasBibWatcher == old(hasBibWatcher) && bibWatcherRoot == old(bibWatcherRoot) &&
        citationCalls == old(citationCalls))
      ensures TreeRanked(texFileTree, rank)
      ensures WatchExtends(old(watched), watched, fs)
      ensures BibStable(old(hasBibWatcher), old(bibWatcherRoot), hasBibWatcher, bibWatcherRoot)
    {
      ghost var e := ResolvedEdges(fs, Dirname(filePath));
      ghost var be := ResolvedBibs(fs, Dirname(filePath));
      ResolvedEdgesResolves(fs, Dirname(filePath), e);
      ResolvedBibsResolve(fs, Dirname(filePath));
      assert ScanDir(filePath, "") == Dirname(filePath);
      ok := FindDependentFiles(fs, filePath, "", false, e, be, rank);
    }

    /** The file watcher's `unlink` handler, up to its `yield
        this.findRoot()`: stop watching the file and drop it from the list
        with `splice(indexOf(filePath), 1)`. `searchRoot` tells whether it
        was the root the watcher was created for, when the handler goes on
        to search for a root again (`FindRoot`, run by the host next). */
    method OnTexUnlink(filePath: string) returns (searchRoot: bool)
      requires hasFileWatcher
      modifies this`watched
      ensures watched == RemoveWatched(old(watched), filePath)
      ensures searchRoot <==> filePath == fileWatcherRoot
    {
      watched := SpliceOne(watched, IndexOf(watched, filePath));
      searchRoot := filePath == fileWatcherRoot;
    }

    /** The bibliography watcher's `change` handler: reparse the file. */
    method OnBibChange(filePath: string)
      modifies this`citationCalls
      ensures citationCalls == old(citationCalls) + [ParseBib(filePath)]
    {
      citationCalls := citationCalls + [ParseBib(filePath)];
    }

    /** The bibliography watcher's `unlink` handler: forget the file's
        citations and drop it from the list with
        `splice(indexOf(filePath), 1)`. */
    method OnBibUnlink(filePath: string)
      modifies this`citationCalls, this`watched
      ensures citationCalls == old(citationCalls) + [ForgetBib(filePath)]
      ensures watched == RemoveWatched(old(watched), filePath)
    {
      citationCalls := citationCalls + [ForgetBib(filePath)];
      watched := SpliceOne(watched, IndexOf(watched, filePath));
    }
  }
}
