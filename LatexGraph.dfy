/** The pure side of LaTeX Workshop's document manager
    (`out/src/components/manager.js`): how an inclusion directive is
    resolved to a file, which children a scan records for a file, what a
    scan reaches, the `isRoot` reachability query over the inclusion tree,
    the pure root-finding strategies and the `isTex`/`tex2pdf` helpers.

    Nothing in the source guards against circular inclusion, so every
    recursive notion here is defined only for an acyclic graph, witnessed by
    a ghost `rank` that strictly decreases along every edge. */
module LatexGraph {
  import opened Js
  import opened Paths

  /** What the manager extracts from a file's text: the arguments of its
      `\input`, `\include` and `\subfile` directives and the raw arguments
      of its `\bibliography` and `\addbibresource` directives, each in
      order of occurrence, and whether it contains `\begin{document}`. */
  datatype TexSource = TexSource(inputs: seq<string>, bibs: seq<string>, beginsDocument: bool)

  /** The files that exist, each with what reading it yields. */
  datatype FileSystem = FileSystem(files: map<string, TexSource>)

  /** The inclusion graph `texFileTree`: file to the set of its children. */
  type Tree = map<string, set<string>>

  function OptSet(o: Option<string>): set<string> {
    if o.Some? then {o.value} else {}
  }

  /** The path an inclusion argument names before the existence checks:
      `resolve(join(rootDir, arg))`, with ".tex" appended when it has no
      extension. */
  function InputCandidate(rootDir: string, arg: string): string {
    var p := JoinResolve(rootDir, arg);
    if Extname(p) == "" then p + ".tex" else p
  }

  /** The file an inclusion argument resolves to: the candidate if it
      exists, otherwise the candidate with a further ".tex" if that exists,
      otherwise nothing (no edge, no recursion). */
  function ResolveInput(fs: FileSystem, rootDir: string, arg: string): (r: Option<string>)
    ensures r.Some? ==> r.value in fs.files
    ensures var p := InputCandidate(rootDir, arg);
      && (r.None? <==> p !in fs.files && p + ".tex" !in fs.files)
      && (r.Some? && p in fs.files ==> r.value == p)
      && (r.Some? && p !in fs.files ==> r.value == p + ".tex")
  {
    var p := InputCandidate(rootDir, arg);
    var q := if p !in fs.files && p + ".tex" in fs.files then p + ".tex" else p;
    if q in fs.files then Some(q) else None
  }

  /** The candidate always carries an extension: either the argument named
      one or ".tex" was appended. */
  lemma InputCandidateHasExtension(rootDir: string, arg: string)
    requires JoinResolve(rootDir, arg) != "/"
    ensures var p := JoinResolve(rootDir, arg);
      InputCandidate(rootDir, arg) == (if Extname(p) == "" then p + ".tex" else p)
    ensures Extname(InputCandidate(rootDir, arg)) != ""
  {
    var p := JoinResolve(rootDir, arg);
    CanonShape(rootDir + "/" + arg);
    if Extname(p) == "" {
      ExtnameAppend(p, ".tex");
    }
  }

  /** The path a bibliography name stands for before the existence checks:
      an absolute name is kept as written, a relative one is resolved
      against `rootDir`; ".bib" is appended when it has no extension. */
  function BibCandidate(rootDir: string, bib: string): string {
    var p := if IsAbsolute(bib) then bib else JoinResolve(rootDir, bib);
    if Extname(p) == "" then p + ".bib" else p
  }

  /** The bibliography file a name resolves to, with the same fallback as
      inclusions but on ".bib". */
  function ResolveBib(fs: FileSystem, rootDir: string, bib: string): (r: Option<string>)
    ensures r.Some? ==> r.value in fs.files
    ensures var p := BibCandidate(rootDir, bib);
      && (r.None? <==> p !in fs.files && p + ".bib" !in fs.files)
      && (r.Some? && p in fs.files ==> r.value == p)
      && (r.Some? && p !in fs.files ==> r.value == p + ".bib")
  {
    var p := BibCandidate(rootDir, bib);
    var q := if p !in fs.files && p + ".bib" in fs.files then p + ".bib" else p;
    if q in fs.files then Some(q) else None
  }

  /** The white space `String.prototype.trim` removes. */
  predicate IsSpace(c: char) {
    c in {' ', '\t', '\n', '\r', '\U{000B}', '\U{000C}', '\U{00A0}', '\U{1680}',
          '\U{2000}', '\U{2001}', '\U{2002}', '\U{2003}', '\U{2004}', '\U{2005}',
          '\U{2006}', '\U{2007}', '\U{2008}', '\U{2009}', '\U{200A}', '\U{2028}',
          '\U{2029}', '\U{202F}', '\U{205F}', '\U{3000}', '\U{FEFF}'}
  }

  function TrimStart(s: string): string {
    if s != "" && IsSpace(s[0]) then TrimStart(s[1..]) else s
  }

  function TrimEnd(s: string): string {
    if s != "" && IsSpace(s[|s| - 1]) then TrimEnd(s[..|s| - 1]) else s
  }

  /** `s.trim()`. */
  function Trim(s: string): string {
    TrimEnd(TrimStart(s))
  }

  /** `trimStart` cuts a prefix of white space and stops at the first other
      character. */
  lemma {:induction false} TrimStartSpec(s: string)
    ensures var r := TrimStart(s);
      && |r| <= |s| && r == s[|s| - |r|..]
      && (r != "" ==> !IsSpace(r[0]))
      && (forall k :: 0 <= k < |s| - |r| ==> IsSpace(s[k]))
  {
    if s != "" && IsSpace(s[0]) {
      var t := s[1..];
      TrimStartSpec(t);
      var r := TrimStart(t);
      assert TrimStart(s) == r;
      assert r == s[|s| - |r|..] by {
        assert t[|t| - |r|..] == s[|s| - |r|..];
      }
      forall k | 0 <= k < |s| - |r|
        ensures IsSpace(s[k])
      {
        if k > 0 {
          assert s[k] == t[k - 1];
        }
      }
    }
  }

  /** `trimEnd` cuts a suffix of white space and stops at the last other
      character. */
  lemma {:induction false} TrimEndSpec(s: string)
    ensures var r := TrimEnd(s);
      && |r| <= |s| && r == s[..|r|]
      && (r != "" ==> !IsSpace(r[|r| - 1]))
      && (forall k :: |r| <= k < |s| ==> IsSpace(s[k]))
  {
    if s != "" && IsSpace(s[|s| - 1]) {
      var t := s[..|s| - 1];
      TrimEndSpec(t);
      var r := TrimEnd(t);
      assert TrimEnd(s) == r;
      assert r == s[..|r|] by {
        assert t[..|r|] == s[..|r|];
      }
      forall k | |r| <= k < |s|
        ensures IsSpace(s[k])
      {
        if k < |s| - 1 {
          assert s[k] == t[k];
        }
      }
    }
  }

  /** `trim` keeps the slice of `s` starting at some offset `o`, cutting
      only white space before and after it; what it keeps neither starts nor
      ends with white space. */
  lemma TrimSpec(s: string) returns (o: nat)
    ensures var r := Trim(s);
      && o + |r| <= |s| && r == s[o..o + |r|]
      && (r != "" ==> !IsSpace(r[0]) && !IsSpace(r[|r| - 1]))
      && (forall k :: 0 <= k < o ==> IsSpace(s[k]))
      && (forall k :: o + |r| <= k < |s| ==> IsSpace(s[k]))
  {
    var t := TrimStart(s);
    TrimStartSpec(s);
    TrimEndSpec(t);
    var r := TrimEnd(t);
    o := |s| - |t|;
    assert r == s[o..][..|r|];
    assert forall k :: o + |r| <= k < |s| ==> s[k] == t[k - o];
  }

  function TrimAll(parts: seq<string>): (r: seq<string>)
    ensures |r| == |parts|
  {
    if parts == [] then [] else [Trim(parts[0])] + TrimAll(parts[1..])
  }

  /** The bibliography names of a file, in order: every raw directive
      argument split at ',' and each piece trimmed. */
  function BibNames(raws: seq<string>): seq<string>
  {
    if raws == [] then [] else TrimAll(SplitOn(raws[0], ',')) + BibNames(raws[1..])
  }

  /** Trimmed pieces of comma-free parts keep no comma and no outer space. */
  lemma {:induction false} TrimAllClean(parts: seq<string>)
    requires forall i :: 0 <= i < |parts| ==> ',' !in parts[i]
    ensures forall i :: 0 <= i < |TrimAll(parts)| ==> CleanBibName(TrimAll(parts)[i])
  {
    if parts != [] {
      TrimAllClean(parts[1..]);
      var t := Trim(parts[0]);
      var o := TrimSpec(parts[0]);
      forall k | 0 <= k < |t| ensures t[k] != ',' {
        assert t[k] == parts[0][o + k];
      }
    }
  }

  /** A bibliography name is a single comma-free entry without white space
      around it. */
  predicate CleanBibName(n: string) {
    ',' !in n && (n != "" ==> !IsSpace(n[0]) && !IsSpace(n[|n| - 1]))
  }

  /** The names of the first raw argument are clean. */
  lemma HeadNamesClean(raw: string)
    ensures forall i :: 0 <= i < |TrimAll(SplitOn(raw, ','))| ==> CleanBibName(TrimAll(SplitOn(raw, ','))[i])
  {
    var parts := SplitOn(raw, ',');
    SplitOnPieces(raw, ',');
    TrimAllClean(parts);
  }

  lemma AllCleanConcat(h: seq<string>, t: seq<string>)
    requires forall i :: 0 <= i < |h| ==> CleanBibName(h[i])
    requires forall i :: 0 <= i < |t| ==> CleanBibName(t[i])
    ensures forall i :: 0 <= i < |h + t| ==> CleanBibName((h + t)[i])
  {
    forall i | 0 <= i < |h + t| ensures CleanBibName((h + t)[i]) {
      if i >= |h| { assert (h + t)[i] == t[i - |h|]; }
    }
  }

  /** Every bibliography name is clean. */
  lemma {:induction false} BibNamesClean(raws: seq<string>)
    ensures forall i :: 0 <= i < |BibNames(raws)| ==> CleanBibName(BibNames(raws)[i])
  {
    if raws != [] {
      HeadNamesClean(raws[0]);
      BibNamesClean(raws[1..]);
      AllCleanConcat(TrimAll(SplitOn(raws[0], ',')), BibNames(raws[1..]));
    }
  }

  /** The resolved inclusion directives of each file, in order, for a scan
      that resolves against one root directory. */
  type Edges = map<string, seq<Option<string>>>

  function ResolveAll(fs: FileSystem, rootDir: string, args: seq<string>): (r: seq<Option<string>>)
    ensures |r| == |args|
    ensures forall i :: 0 <= i < |args| ==> r[i] == ResolveInput(fs, rootDir, args[i])
  {
    if args == [] then [] else [ResolveInput(fs, rootDir, args[0])] + ResolveAll(fs, rootDir, args[1..])
  }

  /** The graph a scan against `rootDir` explores: every existing file with
      its resolved directives. */
  function ResolvedEdges(fs: FileSystem, rootDir: string): Edges {
    map g | g in fs.files :: ResolveAll(fs, rootDir, fs.files[g].inputs)
  }

  /** `e` is the graph a scan against `rootDir` explores, stated entry by
      entry; the link to `ResolveInput` is only used where a directive is
      actually resolved. */
  ghost predicate Resolves(fs: FileSystem, rootDir: string, e: Edges) {
    && e.Keys == fs.files.Keys
    && EdgesClosed(e)
    && (forall g :: g in e ==> |e[g]| == |fs.files[g].inputs|)
    && (forall g, i {:trigger ResolveInput(fs, rootDir, fs.files[g].inputs[i])} ::
          g in e && 0 <= i < |e[g]| ==> e[g][i] == ResolveInput(fs, rootDir, fs.files[g].inputs[i]))
  }

  /** Every resolved directive names a file that has its own entry. */
  ghost predicate EdgesClosed(e: Edges) {
    forall g, i :: g in e && 0 <= i < |e[g]| && e[g][i].Some? ==> e[g][i].value in e
  }

  /** `ResolvedEdges` is the graph a scan explores, and the only one. */
  lemma ResolvedEdgesResolves(fs: FileSystem, rootDir: string, e: Edges)
    ensures Resolves(fs, rootDir, ResolvedEdges(fs, rootDir))
    ensures Resolves(fs, rootDir, e) ==> e == ResolvedEdges(fs, rootDir)
  {
    var r := ResolvedEdges(fs, rootDir);
    if Resolves(fs, rootDir, e) {
      forall g | g in e ensures e[g] == r[g] {
        forall i | 0 <= i < |e[g]| ensures e[g][i] == r[g][i] {
          assert e[g][i] == ResolveInput(fs, rootDir, fs.files[g].inputs[i]);
        }
      }
    }
  }

  /** The resolved bibliography files of each file, one per name. */
  function ResolveBibAll(fs: FileSystem, rootDir: string, names: seq<string>): (r: seq<Option<string>>)
    ensures |r| == |names|
    ensures forall k :: 0 <= k < |names| ==> r[k] == ResolveBib(fs, rootDir, names[k])
  {
    if names == [] then [] else [ResolveBib(fs, rootDir, names[0])] + ResolveBibAll(fs, rootDir, names[1..])
  }

  /** `rs` is what the names of `names` resolve to against `rootDir`, one
      per name. */
  ghost predicate BibListResolves(fs: FileSystem, rootDir: string, names: seq<string>, rs: seq<Option<string>>) {
    && |rs| == |names|
    && forall k {:trigger ResolveBib(fs, rootDir, names[k])} ::
         0 <= k < |rs| ==> rs[k] == ResolveBib(fs, rootDir, names[k])
  }

  lemma ResolveBibAllResolves(fs: FileSystem, rootDir: string, names: seq<string>)
    ensures BibListResolves(fs, rootDir, names, ResolveBibAll(fs, rootDir, names))
  {
  }

  function ResolvedBibs(fs: FileSystem, rootDir: string): map<string, seq<Option<string>>> {
    map g | g in fs.files :: ResolveBibAll(fs, rootDir, BibNames(fs.files[g].bibs))
  }

  /** `be` holds, for every file, what its bibliography names resolve to
      against `rootDir`. */
  ghost predicate BibsResolve(fs: FileSystem, rootDir: string, be: map<string, seq<Option<string>>>) {
    && be.Keys == fs.files.Keys
    && (forall g :: g in be ==> |be[g]| == |BibNames(fs.files[g].bibs)|)
    && (forall g, k {:trigger ResolveBib(fs, rootDir, BibNames(fs.files[g].bibs)[k])} ::
          g in be && 0 <= k < |be[g]| ==> be[g][k] == ResolveBib(fs, rootDir, BibNames(fs.files[g].bibs)[k]))
  }

  lemma ResolvedBibsResolve(fs: FileSystem, rootDir: string)
    ensures BibsResolve(fs, rootDir, ResolvedBibs(fs, rootDir))
  {
  }

  /** `BibsResolve` pins the resolved bibliography names down. */
  lemma ResolvedBibsUnique(fs: FileSystem, rootDir: string, be: map<string, seq<Option<string>>>)
    requires BibsResolve(fs, rootDir, be)
    ensures be == ResolvedBibs(fs, rootDir)
  {
    var r := ResolvedBibs(fs, rootDir);
    forall g | g in be ensures be[g] == r[g] {
      forall k | 0 <= k < |be[g]| ensures be[g][k] == r[g][k] {
        assert be[g][k] == ResolveBib(fs, rootDir, BibNames(fs.files[g].bibs)[k]);
      }
    }
  }

  /** The children a scan of `g` records from its first `n` inclusion
      directives. */
  function KidsUpTo(e: Edges, g: string, n: nat): set<string>
    requires g in e && n <= |e[g]|
  {
    if n == 0 then {} else KidsUpTo(e, g, n - 1) + OptSet(e[g][n - 1])
  }

  /** The children a scan of `g` records: `texFileTree[g]` afterwards. */
  function Kids(e: Edges, g: string): set<string>
    requires g in e
  {
    KidsUpTo(e, g, |e[g]|)
  }

  /** A recorded child is exactly a file that one of the directives
      resolves to. */
  lemma {:induction false} KidsUpToMember(e: Edges, g: string, n: nat, c: string)
    requires g in e && n <= |e[g]|
    ensures c in KidsUpTo(e, g, n) <==> exists i :: 0 <= i < n && e[g][i] == Some(c)
  {
    if n > 0 {
      KidsUpToMember(e, g, n - 1, c);
    }
  }

  /** The resolved children of a file are existing files, and each is what
      some directive of the file resolves to. */
  lemma KidsResolved(fs: FileSystem, rootDir: string, g: string, c: string)
    requires g in fs.files
    ensures g in ResolvedEdges(fs, rootDir)
    ensures c in Kids(ResolvedEdges(fs, rootDir), g) <==>
      exists i :: 0 <= i < |fs.files[g].inputs| && ResolveInput(fs, rootDir, fs.files[g].inputs[i]) == Some(c)
    ensures c in Kids(ResolvedEdges(fs, rootDir), g) ==> c in fs.files
  {
    var e := ResolvedEdges(fs, rootDir);
    KidsUpToMember(e, g, |e[g]|, c);
  }

  /** `rank` witnesses that the graph has no cycle among the ranked files:
      every child a ranked file resolves to is ranked lower. A ranked file
      need not exist (the tree may still name a deleted one). */
  ghost predicate EdgesRanked(e: Edges, rank: map<string, nat>) {
    forall g, i :: g in rank && g in e && 0 <= i < |e[g]| && e[g][i].Some? ==>
      e[g][i].value in rank && rank[e[g][i].value] < rank[g]
  }

  /** The scan against `rootDir` cannot run into a cycle from any ranked
      file. */
  ghost predicate FsRanked(fs: FileSystem, rootDir: string, rank: map<string, nat>) {
    EdgesRanked(ResolvedEdges(fs, rootDir), rank)
  }

  /** The files a scan of `g` visits: `g` and everything reachable from it. */
  ghost function Reach(e: Edges, rank: map<string, nat>, g: string): set<string>
    requires EdgesRanked(e, rank) && g in rank
    decreases rank[g], 1, 0
  {
    if g in e then {g} + ReachUpTo(e, rank, g, |e[g]|) else {g}
  }

  /** What the scans of the children found through the first `n`
      directives of `g` visit. */
  ghost function ReachUpTo(e: Edges, rank: map<string, nat>, g: string, n: nat): set<string>
    requires EdgesRanked(e, rank) && g in rank && g in e && n <= |e[g]|
    decreases rank[g], 0, n
  {
    if n == 0 then {}
    else
      ReachUpTo(e, rank, g, n - 1) +
      match e[g][n - 1]
      case None => {}
      case Some(c) => Reach(e, rank, c)
  }

  /** Everything a scan visits is ranked, and no higher than where the scan
      started; everything reached through children is strictly lower, so a
      scan never comes back to the file it started from. */
  lemma {:induction false} ReachBound(e: Edges, rank: map<string, nat>, g: string, x: string)
    requires EdgesRanked(e, rank) && g in rank
    requires x in Reach(e, rank, g)
    ensures x in rank && rank[x] <= rank[g]
    decreases rank[g], 1, 0
  {
    if x != g {
      ReachUpToBound(e, rank, g, |e[g]|, x);
    }
  }

  lemma {:induction false} ReachUpToBound(e: Edges, rank: map<string, nat>, g: string, n: nat, x: string)
    requires EdgesRanked(e, rank) && g in rank && g in e && n <= |e[g]|
    requires x in ReachUpTo(e, rank, g, n)
    ensures x in rank && rank[x] < rank[g]
    decreases rank[g], 0, n
  {
    if x in ReachUpTo(e, rank, g, n - 1) {
      ReachUpToBound(e, rank, g, n - 1, x);
    } else {
      ReachBound(e, rank, e[g][n - 1].value, x);
    }
  }

  /** The children's reach, as a union over the recorded children. */
  ghost function ReachOfKids(e: Edges, rank: map<string, nat>, g: string, n: nat): set<string>
    requires EdgesRanked(e, rank) && g in rank && g in e && n <= |e[g]|
  {
    set c, x | c in KidsUpTo(e, g, n) && c in rank && x in Reach(e, rank, c) :: x
  }

  /** Recorded children of a ranked file are ranked. */
  lemma KidsRanked(e: Edges, rank: map<string, nat>, g: string, n: nat, c: string)
    requires EdgesRanked(e, rank) && g in rank && g in e && n <= |e[g]|
    requires c in KidsUpTo(e, g, n)
    ensures c in rank && rank[c] < rank[g]
  {
    KidsUpToMember(e, g, n, c);
  }

  /** A scan's reach beyond the file itself is the union of the reaches of
      its recorded children. */
  lemma {:induction false} ReachUpToIsReachOfKids(e: Edges, rank: map<string, nat>, g: string, n: nat)
    requires EdgesRanked(e, rank) && g in rank && g in e && n <= |e[g]|
    ensures ReachUpTo(e, rank, g, n) == ReachOfKids(e, rank, g, n)
  {
    if n > 0 {
      ReachUpToIsReachOfKids(e, rank, g, n - 1);
      if e[g][n - 1].Some? {
        var c := e[g][n - 1].value;
        assert c in KidsUpTo(e, g, n);
        forall x | x in Reach(e, rank, c) ensures x in ReachOfKids(e, rank, g, n) { }
      }
      forall x | x in ReachOfKids(e, rank, g, n) ensures x in ReachUpTo(e, rank, g, n) {
        var c :| c in KidsUpTo(e, g, n) && c in rank && x in Reach(e, rank, c);
        if c !in KidsUpTo(e, g, n - 1) {
          assert e[g][n - 1] == Some(c);
        } else {
          assert x in ReachOfKids(e, rank, g, n - 1);
        }
      }
    }
  }

  /** Every child recorded for a visited file is itself visited. */
  lemma ReachClosed(e: Edges, rank: map<string, nat>, g: string, x: string, c: string)
    requires EdgesRanked(e, rank) && g in rank
    requires x in Reach(e, rank, g)
    requires x in e && c in Kids(e, x)
    ensures c in Reach(e, rank, g)
    decreases rank[g]
  {
    ReachBound(e, rank, g, x);
    var n := |e[g]|;
    ReachUpToIsReachOfKids(e, rank, g, n);
    if x == g {
      KidsRanked(e, rank, g, n, c);
      assert c in Reach(e, rank, c);
    } else {
      var k :| k in KidsUpTo(e, g, n) && k in rank && x in Reach(e, rank, k);
      KidsRanked(e, rank, g, n, k);
      ReachClosed(e, rank, k, x, c);
    }
  }

  /** The directory a scan resolves against: the one given, or the
      directory of the scanned file when none is given (`!rootDir`). */
  function ScanDir(filePath: string, rootDir: string): (d: string)
    ensures d != ""
    ensures rootDir != "" ==> d == rootDir
  {
    DirnameNonEmpty(filePath);
    if rootDir == "" then Dirname(filePath) else rootDir
  }

  /** A scan from `u` against its own directory, if `u` exists and so is
      read, runs on an acyclic graph. */
  ghost predicate RootRanked(fs: FileSystem, rank: map<string, nat>, u: string) {
    u in fs.files ==> u in rank && FsRanked(fs, Dirname(u), rank)
  }

  /** `rank` witnesses that the recorded graph has no cycle: every file
      with an entry is ranked, and so is each of its children, lower. */
  ghost predicate TreeRanked(tree: Tree, rank: map<string, nat>) {
    forall g :: g in tree ==> g in rank && forall c :: c in tree[g] ==> c in rank && rank[c] < rank[g]
  }

  /** The files `updateRootOfFiles(root, g)` assigns: descend through files
      that have an entry in the tree; a file without one stops the descent
      and is not assigned. */
  ghost function TreeReach(tree: Tree, rank: map<string, nat>, g: string): set<string>
    requires TreeRanked(tree, rank)
    decreases if g in rank then rank[g] else 0
  {
    if g !in tree then {}
    else {g} + set c, x | c in tree[g] && x in TreeReach(tree, rank, c) :: x
  }

  /** `isRoot(root, file)` without a rescan: `root` must exist; it is a root
      of itself; otherwise both files need an entry in the tree and some
      child of `root` must be a root of `file`. */
  predicate IsRoot(fs: FileSystem, tree: Tree, ghost rank: map<string, nat>, root: string, file: string)
    requires TreeRanked(tree, rank)
    decreases if root in rank then rank[root] + 1 else 0
  {
    if root !in fs.files then false
    else if root == file then true
    else if root !in tree || file !in tree then false
    else exists r :: r in tree[root] && IsRoot(fs, tree, rank, r, file)
  }

  /** The files reachable from `g` through existing files, following the
      entries of the tree. */
  ghost function ExistingReach(fs: FileSystem, tree: Tree, rank: map<string, nat>, g: string): set<string>
    requires TreeRanked(tree, rank)
    decreases if g in rank then rank[g] else 0
  {
    if g !in fs.files then {}
    else if g !in tree then {g}
    else {g} + set c, x | c in tree[g] && x in ExistingReach(fs, tree, rank, c) :: x
  }

  /** `isRoot` is reachability: `root` is a root of `file` exactly when
      `file` is reachable from `root` through existing files and, unless it
      is `root` itself, has an entry in the tree. */
  lemma {:induction false} IsRootIsReachability(fs: FileSystem, tree: Tree, rank: map<string, nat>, root: string, file: string)
    requires TreeRanked(tree, rank)
    ensures IsRoot(fs, tree, rank, root, file) <==>
      file in ExistingReach(fs, tree, rank, root) && (root == file || file in tree)
    decreases if root in rank then rank[root] else 0
  {
    if root in fs.files && root != file && root in tree && file in tree {
      forall r | r in tree[root]
        ensures IsRoot(fs, tree, rank, r, file) <==> file in ExistingReach(fs, tree, rank, r)
      {
        IsRootIsReachability(fs, tree, rank, r, file);
      }
    }
  }

  /** On the part of the tree a scan from `u` recorded, both descents the
      manager makes (`isRoot`, `updateRootOfFiles`) visit exactly the scan's
      reach. */
  lemma {:induction false} ScannedReach(fs: FileSystem, e: Edges, rank: map<string, nat>, tree: Tree, u: string, g: string)
    requires EdgesRanked(e, rank) && TreeRanked(tree, rank) && u in rank
    requires e.Keys <= fs.files.Keys
    requires forall x :: x in Reach(e, rank, u) ==> x in tree && x in e && tree[x] == Kids(e, x)
    requires g in Reach(e, rank, u)
    ensures g in rank
    ensures ExistingReach(fs, tree, rank, g) == Reach(e, rank, g)
    ensures TreeReach(tree, rank, g) == Reach(e, rank, g)
    decreases rank[g]
  {
    ReachBound(e, rank, u, g);
    var n := |e[g]|;
    ReachUpToIsReachOfKids(e, rank, g, n);
    forall c | c in tree[g]
      ensures c in rank
      ensures ExistingReach(fs, tree, rank, c) == Reach(e, rank, c)
      ensures TreeReach(tree, rank, c) == Reach(e, rank, c)
    {
      ReachClosed(e, rank, u, g, c);
      ScannedReach(fs, e, rank, tree, u, c);
    }
  }

  /** After a scan has recorded every file it reaches, `isRoot` from the
      scanned file is answered by the reach of the scan alone, whatever else
      the tree held. */
  lemma IsRootAfterScan(fs: FileSystem, e: Edges, rank: map<string, nat>, tree: Tree, u: string, file: string)
    requires EdgesRanked(e, rank) && TreeRanked(tree, rank) && u in rank
    requires e.Keys <= fs.files.Keys
    requires forall x :: x in Reach(e, rank, u) ==> x in tree && x in e && tree[x] == Kids(e, x)
    ensures IsRoot(fs, tree, rank, u, file) <==> u == file || file in Reach(e, rank, u)
  {
    IsRootIsReachability(fs, tree, rank, u, file);
    ScannedReach(fs, e, rank, tree, u, u);
  }

  /** The text of the file open in the editor, as the root strategies see
      it: its path, the argument of a `% !TeX root = ….tex` magic comment
      if it has one, and whether it contains `\begin{document}`. */
  datatype ActiveDoc = ActiveDoc(fileName: string, magicRoot: Option<string>, beginsDocument: bool)

  /** `findRootMagic`: the magic comment's path, resolved against the
      directory of the active file. */
  function FindRootMagic(active: Option<ActiveDoc>): (r: Option<string>)
    ensures r.Some? <==> active.Some? && active.value.magicRoot.Some?
  {
    if active.Some? && active.value.magicRoot.Some?
    then Some(Resolve(Dirname(active.value.fileName), active.value.magicRoot.value))
    else None
  }

  /** A plain relative magic path lands beside the active file, not in the
      workspace root. */
  lemma MagicRootBesideActive(fileName: string, name: string)
    requires CleanSegment(name)
    ensures FindRootMagic(Some(ActiveDoc(fileName, Some(name), false))) == Some(JoinResolve(Dirname(fileName), name))
    ensures Dirname(FindRootMagic(Some(ActiveDoc(fileName, Some(name), false))).value) == Canon(Dirname(fileName))
  {
    var d := Dirname(fileName);
    assert !IsAbsolute(name);
    assert FindRootMagic(Some(ActiveDoc(fileName, Some(name), false))) == Some(Resolve(d, name));
    assert Resolve(d, name) == JoinResolve(d, name);
    DirnameOfChild(d, name);
  }

  /** `findRootSelf`: the active file when it contains `\begin{document}`. */
  function FindRootSelf(active: Option<ActiveDoc>): (r: Option<string>)
    ensures r.Some? <==> active.Some? && active.value.beginsDocument
    ensures r.Some? ==> r.value == active.value.fileName
  {
    if active.Some? && active.value.beginsDocument then Some(active.value.fileName) else None
  }

  /** `documentRoot` (and `findRootSaved`): the root recorded for the
      active file, if any. */
  function DocumentRoot(rootOfFiles: map<string, string>, active: Option<ActiveDoc>): (r: Option<string>)
    ensures r.Some? <==> active.Some? && active.value.fileName in rootOfFiles
    ensures r.Some? ==> r.value == rootOfFiles[active.value.fileName]
  {
    if active.Some? && active.value.fileName in rootOfFiles then Some(rootOfFiles[active.value.fileName]) else None
  }

  /** The candidates `findRootDir` rescans: readable, containing
      `\begin{document}`, with an editor open on another file (`isRoot`
      answers a file's own question before any rescan). */
  ghost predicate Rescanned(fs: FileSystem, active: Option<ActiveDoc>, u: string) {
    u in fs.files && fs.files[u].beginsDocument && active.Some? && u != active.value.fileName
  }

  /** A candidate the directory scan rescans is acyclic from its own
      directory. */
  ghost predicate CandidateRanked(fs: FileSystem, rank: map<string, nat>, active: Option<ActiveDoc>, u: string) {
    Rescanned(fs, active, u) ==> FsRanked(fs, Dirname(u), rank) && u in rank
  }

  /** Every candidate the directory scan gets to is `CandidateRanked`. The
      scan stops at the first candidate that cannot be read or qualifies;
      the ones after it are never read and may be anything. */
  ghost predicate CandidatesRanked(fs: FileSystem, rank: map<string, nat>, active: Option<ActiveDoc>, cands: seq<string>)
    decreases |cands|
  {
    cands != [] ==>
      && CandidateRanked(fs, rank, active, cands[0])
      && (cands[0] in fs.files && !Qualifies(fs, rank, active, cands[0]) ==>
            CandidatesRanked(fs, rank, active, cands[1..]))
  }

  /** A candidate of the directory scan qualifies when it contains
      `\begin{document}` and the active file descends from it. */
  ghost predicate Qualifies(fs: FileSystem, rank: map<string, nat>, active: Option<ActiveDoc>, u: string)
    requires u in fs.files && CandidateRanked(fs, rank, active, u)
  {
    fs.files[u].beginsDocument && active.Some? &&
    (u == active.value.fileName || active.value.fileName in Reach(ResolvedEdges(fs, Dirname(u)), rank, u))
  }

  /** `findRootDir` over the workspace's .tex files: the first candidate
      that qualifies; a candidate that cannot be read ends the scan with
      no result. */
  ghost function DirStrategy(fs: FileSystem, rank: map<string, nat>, active: Option<ActiveDoc>, cands: seq<string>)
    : Option<string>
    requires CandidatesRanked(fs, rank, active, cands)
    decreases |cands|
  {
    if cands == [] || cands[0] !in fs.files then None
    else if Qualifies(fs, rank, active, cands[0]) then Some(cands[0])
    else DirStrategy(fs, rank, active, cands[1..])
  }

  /** One step of the directory scan, read from position `k`. */
  lemma DirStrategyAt(fs: FileSystem, rank: map<string, nat>, active: Option<ActiveDoc>, cands: seq<string>, k: nat)
    requires k < |cands| && CandidatesRanked(fs, rank, active, cands[k..])
    ensures CandidateRanked(fs, rank, active, cands[k])
    ensures cands[k] !in fs.files ==> DirStrategy(fs, rank, active, cands[k..]).None?
    ensures cands[k] in fs.files && Qualifies(fs, rank, active, cands[k]) ==>
      DirStrategy(fs, rank, active, cands[k..]) == Some(cands[k])
    ensures cands[k] in fs.files && !Qualifies(fs, rank, active, cands[k]) ==>
      CandidatesRanked(fs, rank, active, cands[k + 1..]) &&
      DirStrategy(fs, rank, active, cands[k..]) == DirStrategy(fs, rank, active, cands[k + 1..])
  {
    assert cands[k..][0] == cands[k] && cands[k..][1..] == cands[k + 1..];
  }

  /** The directory scan answers a candidate that qualifies, after which
      every earlier candidate was readable and did not qualify. */
  lemma {:induction false} DirStrategyFound(fs: FileSystem, rank: map<string, nat>, active: Option<ActiveDoc>, cands: seq<string>)
    requires CandidatesRanked(fs, rank, active, cands)
    requires DirStrategy(fs, rank, active, cands).Some?
    ensures exists k :: (0 <= k < |cands| && cands[k] == DirStrategy(fs, rank, active, cands).value &&
      cands[k] in fs.files && CandidateRanked(fs, rank, active, cands[k]) && Qualifies(fs, rank, active, cands[k]) &&
      forall j :: 0 <= j < k ==>
        cands[j] in fs.files && CandidateRanked(fs, rank, active, cands[j]) && !Qualifies(fs, rank, active, cands[j]))
    decreases |cands|
  {
    var r := DirStrategy(fs, rank, active, cands).value;
    if Qualifies(fs, rank, active, cands[0]) {
      assert cands[0] == r;
    } else {
      var tail := cands[1..];
      DirStrategyFound(fs, rank, active, tail);
      var k :| (0 <= k < |tail| && tail[k] == r &&
        tail[k] in fs.files && CandidateRanked(fs, rank, active, tail[k]) && Qualifies(fs, rank, active, tail[k]) &&
        forall j :: 0 <= j < k ==>
          tail[j] in fs.files && CandidateRanked(fs, rank, active, tail[j]) && !Qualifies(fs, rank, active, tail[j]));
      assert cands[k + 1] == tail[k];
      forall j | 0 <= j < k + 1
        ensures cands[j] in fs.files && CandidateRanked(fs, rank, active, cands[j]) && !Qualifies(fs, rank, active, cands[j])
      {
        if j > 0 { assert cands[j] == tail[j - 1]; }
      }
    }
  }

  /** With no answer from the directory scan, no candidate up to the first
      unreadable one qualifies. */
  lemma {:induction false} DirStrategyExhausted(fs: FileSystem, rank: map<string, nat>, active: Option<ActiveDoc>,
                                                 cands: seq<string>, j: nat)
    requires CandidatesRanked(fs, rank, active, cands)
    requires DirStrategy(fs, rank, active, cands).None?
    requires j < |cands| && forall i :: 0 <= i <= j ==> cands[i] in fs.files
    ensures CandidateRanked(fs, rank, active, cands[j]) && !Qualifies(fs, rank, active, cands[j])
    decreases j
  {
    assert cands[0] in fs.files;
    if j > 0 {
      var tail := cands[1..];
      assert forall i :: 0 <= i <= j - 1 ==> tail[i] == cands[i + 1];
      DirStrategyExhausted(fs, rank, active, tail, j - 1);
      assert tail[j - 1] == cands[j];
    }
  }

  /** `isTex`: the extension is one of LaTeX's source extensions. */
  predicate IsTex(p: string) {
    Extname(p) in [".tex", ".sty", ".cls", ".bbx", ".cbx", ".dtx"]
  }

  /** A path that gets ".tex" appended is a TeX source. */
  lemma IsTexAppended(p: string)
    requires |p| > 0 && p[|p| - 1] != '/'
    ensures IsTex(p + ".tex")
  {
    ExtnameAppend(p, ".tex");
  }

  /** `texPath.substr(0, texPath.lastIndexOf('.'))`; without a dot the
      length is negative and the result is empty. */
  function Stem(texPath: string): string {
    var i := LastIndexOf(texPath, '.');
    if i < 0 then "" else texPath[..i]
  }

  /** `tex2pdf`: the PDF beside the source, in the output directory
      (`outputDir` is "./" when the output directory is not respected). */
  function Tex2Pdf(texPath: string, outputDir: string): string {
    Resolve(Resolve(Dirname(texPath), outputDir), Basename(Stem(texPath) + ".pdf"))
  }

  /** A resolved path is canonical. */
  lemma ResolveIsCanonical(base: string, p: string)
    ensures Canon(Resolve(base, p)) == Resolve(base, p)
  {
    if IsAbsolute(p) {
      CanonIdempotent(p);
    } else {
      CanonIdempotent(base + "/" + p);
    }
  }

  /** The file name of the PDF is a single clean segment. */
  lemma PdfNameClean(stem: string)
    ensures Basename(stem + ".pdf") == Basename(stem) + ".pdf"
    ensures CleanSegment(Basename(stem) + ".pdf")
  {
    BasenameAppend(stem, ".pdf");
    var b := Basename(stem);
    var name := b + ".pdf";
    assert '/' !in b;
    assert name[|name| - 1] == 'f';
    forall k | 0 <= k < |name| ensures name[k] != '/' {
      if k < |b| { assert name[k] == b[k]; } else { assert name[k] == ".pdf"[k - |b|]; }
    }
  }

  /** The PDF lies in the output directory resolved against the source's
      directory, and is named after the source's stem. */
  lemma Tex2PdfLocation(texPath: string, outputDir: string)
    ensures Dirname(Tex2Pdf(texPath, outputDir)) == Resolve(Dirname(texPath), outputDir)
    ensures Basename(Tex2Pdf(texPath, outputDir)) == Basename(Stem(texPath)) + ".pdf"
  {
    var out := Resolve(Dirname(texPath), outputDir);
    PdfNameClean(Stem(texPath));
    var name := Basename(Stem(texPath)) + ".pdf";
    assert !IsAbsolute(name);
    assert Tex2Pdf(texPath, outputDir) == JoinResolve(out, name);
    DirnameOfChild(out, name);
    ResolveIsCanonical(Dirname(texPath), outputDir);
  }
}
