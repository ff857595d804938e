# Verified model of two editor-extension cores

This project models two pieces of code shipped with the editor extensions in
the repository's `Mackup/.vscode/extensions` directory, and proves properties
of each.

**LaTeX Workshop's document manager.** Source: `out/src/components/manager.js`, class `Manager`.
- `findDependentFiles` scans a `.tex` file and follows its `\input`, `\include` and `\subfile` directives. Each directive is resolved against the scan directory, falling back to an added `.tex`. The scan records the inclusion tree `texFileTree`, puts new children on the file watcher's list, recurses into each child and hands every `\bibliography` / `\addbibresource` name to `addBibToWatcher`.
- `isRoot` asks whether a file descends from a candidate root in that tree.
- `updateRootOfFiles` assigns a root to every file below it.
- `findRoot` tries four strategies in order: a magic `% !TeX root` comment, the active file itself, the root recorded for the active file, and a scan of the workspace's `.tex` files. When the root changes, it calls `findAllDependentFiles`, which replaces or creates the file watcher and registers glob callbacks for additional bibliography files.
- The `rootFile` getter and setter keep one root per workspace. Reading the getter writes the active file's recorded root back as the workspace's root file.
- The watchers' `change` and `unlink` handlers are modelled, as are the `isTex` and `tex2pdf` helpers.

**The Elm extension's elm-analyse client.** Source: `out/src/elmAnalyse.js`, class `ElmAnalyse`.
- The socket's message handler turns each analyser message into an editor issue. It uses `parseMessageInfoFileRange`, `correctRange` and `parseMessageInfoDetail` over the 22-entry description table.
- `checkElmAnalyseServerState` classifies what answers on the analyser's port.
- The client's start, stop and lint state is modelled: `startAnalyseProcess`, `execActivateAnalyseProcesses`, the delayed socket start, `execStopAnalyse` and `updateLinter`.

**Files:**
- `Js.dfy`: the JavaScript built-ins whose exact behaviour matters, namely `indexOf`, `splice(indexOf(x), 1)` and literal `match`.
- `Paths.dfy`: Node's POSIX `path` functions (`resolve`, `join`, `dirname`, `basename`, `extname`).
- `LatexGraph.dfy`: the pure side of the manager. This covers resolution, the inclusion graph and reachability, `isRoot`, the root strategies, `isTex` and `tex2pdf`.
- `LatexManager.dfy`: `Manager` as a class over its mutable state. This covers the tree, the watch list, `rootFiles`, `rootOfFiles`, the workspace, whether each watcher exists, and the requests made of the citation completer.
- `ElmAnalyse.dfy`: the message handling as functions over the message list, plus the client as a class.

**Acyclic inclusion graph.** The manager never guards against circular inclusion. Every recursive scan is therefore modelled on an acyclic inclusion graph. A ghost `rank` map witnesses this: the rank strictly decreases along every edge.

**How a scan is specified.** A scan method is proved against the graph that resolution defines. The tree afterwards holds exactly the children of every file the scan reached (`TreeScanned`). Everything reached is covered by the watchers (`AllCovered`). The watch list only grows, at its end, by existing files and without duplicates (`WatchExtends`).

**Unlink handlers.** Both `unlink` handlers drop a path with `watched.splice(watched.indexOf(filePath), 1)`. For a path that is not listed, this removes the *last* listed path (`Js.RemoveWatchedAbsent`). The first bibliography file is one such path: it creates the bibliography watcher but is never pushed on the list. The model keeps this behaviour as written.

## Model

| member | source | states |
|---|---|---|
| Js.IndexOf | Mackup/.vscode/extensions/james-yu.latex-workshop-5.6.1/out/src/components/manager.js:197 | `indexOf` is -1 exactly when the value is absent, otherwise the index of its first occurrence |
| Js.RemoveWatchedPresent | Mackup/.vscode/extensions/james-yu.latex-workshop-5.6.1/out/src/components/manager.js:216 | for a listed path, `splice(indexOf(p), 1)` removes its first occurrence and keeps the order of the rest; on a list without duplicates the result is the other paths exactly, still without duplicates |
| Js.RemoveWatchedAbsent | Mackup/.vscode/extensions/james-yu.latex-workshop-5.6.1/out/src/components/manager.js:316 | for a path that is not listed, the same idiom deletes the last listed path, which is a different one |
| Js.ContainsAt | Mackup/.vscode/extensions/sbrink.elm-0.17.0/out/src/elmAnalyse.js:328 | a literal `match` succeeds exactly when the literal occurs at some offset |
| Paths.JoinResolveChild | Mackup/.vscode/extensions/james-yu.latex-workshop-5.6.1/out/src/components/manager.js:253 | `resolve(join(dir, name))` for a plain name is the canonical directory followed by the name, one segment longer |
| Paths.CanonIdempotent | Mackup/.vscode/extensions/james-yu.latex-workshop-5.6.1/out/src/components/manager.js:253 | resolving an already resolved path changes nothing |
| Paths.DirnameOfChild | Mackup/.vscode/extensions/james-yu.latex-workshop-5.6.1/out/src/components/manager.js:241 | the `dirname` of a resolved child is the canonical directory and its `basename` is the name |
| Paths.ExtnameAppend | Mackup/.vscode/extensions/james-yu.latex-workshop-5.6.1/out/src/components/manager.js:254-256 | appending an extension to a path makes `extname` answer exactly that extension |
| LatexGraph.ResolveInput | Mackup/.vscode/extensions/james-yu.latex-workshop-5.6.1/out/src/components/manager.js:253-260 | an inclusion argument resolves to the candidate if it exists, else to the candidate plus ".tex" if that exists, else to nothing; a resolved file always exists |
| LatexGraph.InputCandidateHasExtension | Mackup/.vscode/extensions/james-yu.latex-workshop-5.6.1/out/src/components/manager.js:253-256 | when the joined path is not the file-system root "/", the candidate path has an extension, because ".tex" is added exactly when the joined path had none |
| LatexGraph.ResolveBib | Mackup/.vscode/extensions/james-yu.latex-workshop-5.6.1/out/src/components/manager.js:290-303 | a bibliography name is kept when absolute and resolved against the directory otherwise; ".bib" is added when it has no extension, with the same existence fallback |
| LatexGraph.ScanDir | Mackup/.vscode/extensions/james-yu.latex-workshop-5.6.1/out/src/components/manager.js:240-242 | the scan directory is the given one when it is non-empty, and never empty |
| LatexGraph.TrimStartSpec | Mackup/.vscode/extensions/james-yu.latex-workshop-5.6.1/out/src/components/manager.js:280 | trimming the start cuts exactly a prefix of white space and keeps the first other character |
| LatexGraph.TrimEndSpec | Mackup/.vscode/extensions/james-yu.latex-workshop-5.6.1/out/src/components/manager.js:280 | trimming the end cuts exactly a suffix of white space |
| LatexGraph.TrimSpec | Mackup/.vscode/extensions/james-yu.latex-workshop-5.6.1/out/src/components/manager.js:280 | `trim` keeps a slice of the input with only white space cut around it, and the slice neither starts nor ends with white space |
| LatexGraph.BibNamesClean | Mackup/.vscode/extensions/james-yu.latex-workshop-5.6.1/out/src/components/manager.js:279-281 | every bibliography name from splitting at ',' and trimming has no comma and no outer white space |
| LatexGraph.ResolvedEdgesResolves | Mackup/.vscode/extensions/james-yu.latex-workshop-5.6.1/out/src/components/manager.js:246-261 | the graph a scan follows is exactly the one resolution defines: it exists and it is unique |
| LatexGraph.KidsResolved | Mackup/.vscode/extensions/james-yu.latex-workshop-5.6.1/out/src/components/manager.js:257-261 | a file is a child of `g` exactly when one of `g`'s directives resolves to it, and every child exists |
| LatexGraph.ReachClosed | Mackup/.vscode/extensions/james-yu.latex-workshop-5.6.1/out/src/components/manager.js:267 | what a scan reaches is closed under children, because every child is scanned in turn |
| LatexGraph.IsRootIsReachability | Mackup/.vscode/extensions/james-yu.latex-workshop-5.6.1/out/src/components/manager.js:175-194 | `isRoot(root, file)` holds exactly when `file` is reachable from `root` through existing files of the tree and, unless it is `root`, has an entry of its own |
| LatexGraph.IsRootAfterScan | Mackup/.vscode/extensions/james-yu.latex-workshop-5.6.1/out/src/components/manager.js:182-193 | after a scan of `root`, `isRoot(root, file)` is `root == file` or reachability of `file` in the resolved inclusion graph |
| LatexGraph.FindRootMagic | Mackup/.vscode/extensions/james-yu.latex-workshop-5.6.1/out/src/components/manager.js:104-117 | the magic-comment strategy answers exactly when there is an active editor whose text has the comment |
| LatexGraph.MagicRootBesideActive | Mackup/.vscode/extensions/james-yu.latex-workshop-5.6.1/out/src/components/manager.js:112 | a plain magic-comment name resolves to a file in the active file's own directory |
| LatexGraph.FindRootSelf | Mackup/.vscode/extensions/james-yu.latex-workshop-5.6.1/out/src/components/manager.js:118-131 | the self strategy answers the active file exactly when its text contains `\begin{document}` |
| LatexGraph.DocumentRoot | Mackup/.vscode/extensions/james-yu.latex-workshop-5.6.1/out/src/components/manager.js:39-45 | `documentRoot` answers the root recorded for the active file exactly when one is recorded |
| LatexGraph.DirStrategyFound | Mackup/.vscode/extensions/james-yu.latex-workshop-5.6.1/out/src/components/manager.js:157-167 | a root found by the directory scan exists, contains `\begin{document}`, has the active file below it after a rescan, and is preceded only by existing candidates that do not qualify |
| LatexGraph.DirStrategyExhausted | Mackup/.vscode/extensions/james-yu.latex-workshop-5.6.1/out/src/components/manager.js:157-172 | when the directory scan finds nothing, no candidate of the readable prefix qualifies |
| LatexGraph.IsTexAppended | Mackup/.vscode/extensions/james-yu.latex-workshop-5.6.1/out/src/components/manager.js:51-53 | a path given the ".tex" extension is a TeX source for `isTex` |
| LatexGraph.Tex2PdfLocation | Mackup/.vscode/extensions/james-yu.latex-workshop-5.6.1/out/src/components/manager.js:46-50 | the PDF lies in the output directory resolved against the source's directory, and is named after the source's stem with ".pdf" |
| LatexGraph.PdfNameClean | Mackup/.vscode/extensions/james-yu.latex-workshop-5.6.1/out/src/components/manager.js:49 | the PDF's base name is the stem's base name plus ".pdf", a single plain segment |
| LatexManager.WorkspaceOf | Mackup/.vscode/extensions/james-yu.latex-workshop-5.6.1/out/src/components/manager.js:54-73 | the workspace is the active editor's folder when there is one, otherwise the root path, otherwise "" |
| LatexManager.RootFileValue | Mackup/.vscode/extensions/james-yu.latex-workshop-5.6.1/out/src/components/manager.js:28-35 | the `rootFile` getter answers the active file's recorded root when there is one, otherwise the workspace's root file, if any |
| LatexManager.ChosenRoot | Mackup/.vscode/extensions/james-yu.latex-workshop-5.6.1/out/src/components/manager.js:77-93 | the magic comment wins when present; with no root found, the magic, self and saved strategies all failed |
| LatexManager.GlobMatches | Mackup/.vscode/extensions/james-yu.latex-workshop-5.6.1/out/src/components/manager.js:225-235 | the glob callbacks see no file exactly when every glob matched nothing |
| LatexManager.ScanStepNone | Mackup/.vscode/extensions/james-yu.latex-workshop-5.6.1/out/src/components/manager.js:253-260 | a directive naming no existing file leaves the scan's progress as it was |
| LatexManager.ScanStepSome | Mackup/.vscode/extensions/james-yu.latex-workshop-5.6.1/out/src/components/manager.js:260-268 | recording, watching and scanning a resolved child advances the scan's invariant by one directive |
| LatexManager.ScanDone | Mackup/.vscode/extensions/james-yu.latex-workshop-5.6.1/out/src/components/manager.js:247-269 | after the last directive, the tree holds exactly the children of everything reached and every reached file but the scanned one is covered; a fast scan of a file without children watches nothing |
| LatexManager.ScanFinish | Mackup/.vscode/extensions/james-yu.latex-workshop-5.6.1/out/src/components/manager.js:273-285 | after the bibliography step of a full scan, every file reached is covered, the scanned one included |
| LatexManager.RootScanReach | Mackup/.vscode/extensions/james-yu.latex-workshop-5.6.1/out/src/components/manager.js:84-85 | after `findAllDependentFiles` scanned the root, `updateRootOfFiles` descends through exactly what the scan reached |
| LatexManager.AssignedTwice | Mackup/.vscode/extensions/james-yu.latex-workshop-5.6.1/out/src/components/manager.js:96-103 | assigning the same root below two children is assigning it below their union, so shared descendants and child order do not matter |
| LatexManager.Manager.constructor | Mackup/.vscode/extensions/james-yu.latex-workshop-5.6.1/out/src/components/manager.js:17-24 | empty tree, watch list and root maps, no workspace and no watchers |
| LatexManager.Manager.AddBibToWatcher | Mackup/.vscode/extensions/james-yu.latex-workshop-5.6.1/out/src/components/manager.js:289-330 | the first existing bibliography file creates the watcher without entering the list; a later one is listed once; each newly watched file is parsed; afterwards the resolved file is watched and the list keeps no duplicates |
| LatexManager.Manager.WatchBibPath | Mackup/.vscode/extensions/james-yu.latex-workshop-5.6.1/out/src/components/manager.js:303-329 | the watcher branch of `addBibToWatcher` on a resolved path, with the same guarantees |
| LatexManager.Manager.FindDependentFiles | Mackup/.vscode/extensions/james-yu.latex-workshop-5.6.1/out/src/components/manager.js:239-288 | fails with nothing changed exactly when the file does not exist; otherwise the tree entries of everything reached are exactly their children and the rest of the tree is untouched; everything reached is covered (all but the file itself when fast); the list only grows by existing files without duplicates; the bibliography watcher, once created, stays; and what the scan adds is bounded (`AddsOnly`): every path added to the list and every citation request added is a child or a resolved bibliography file of a reached file (of a reached file other than the scanned one, when fast), and a bibliography watcher the scan creates is for one of those bibliography files |
| LatexManager.Manager.ScanTree | Mackup/.vscode/extensions/james-yu.latex-workshop-5.6.1/out/src/components/manager.js:246-269 | the directive part of the scan: tree as above, everything below the file covered, its children watched unless the scan is fast, and only children of reached files (the file's own only when not fast) and bibliography files of reached files other than the file added |
| LatexManager.Manager.ScanWithBibs | Mackup/.vscode/extensions/james-yu.latex-workshop-5.6.1/out/src/components/manager.js:246-285 | a scan that is not fast: the tree records the reach, everything reached is covered, and only children and bibliography files of reached files are added |
| LatexManager.Manager.ScanInputs | Mackup/.vscode/extensions/james-yu.latex-workshop-5.6.1/out/src/components/manager.js:247-269 | the directive loop ends with the scan invariant established for every directive |
| LatexManager.Manager.ScanInput | Mackup/.vscode/extensions/james-yu.latex-workshop-5.6.1/out/src/components/manager.js:248-268 | one directive advances the scan invariant by one |
| LatexManager.Manager.ScanChild | Mackup/.vscode/extensions/james-yu.latex-workshop-5.6.1/out/src/components/manager.js:260-268 | a directive resolving to an existing child records, watches and scans it (never fast), advancing the invariant, including its bound on what the scan so far added |
| LatexManager.Manager.ScanRecorded | Mackup/.vscode/extensions/james-yu.latex-workshop-5.6.1/out/src/components/manager.js:267 | once the child is recorded, its nested scan (never fast) advances the invariant by one directive |
| LatexManager.Manager.RecordChild | Mackup/.vscode/extensions/james-yu.latex-workshop-5.6.1/out/src/components/manager.js:261-266 | the child joins the parent's entry; it is pushed on the list exactly when the scan is not fast, a file watcher exists and it is not yet listed |
| LatexManager.Manager.WatchOwnBibs | Mackup/.vscode/extensions/james-yu.latex-workshop-5.6.1/out/src/components/manager.js:273-285 | the file's own bibliography names complete the coverage of everything the scan reached, and only their resolved files are added |
| LatexManager.Manager.WatchBibs | Mackup/.vscode/extensions/james-yu.latex-workshop-5.6.1/out/src/components/manager.js:274-285 | every bibliography file a file's directives name is watched afterwards, and nothing but those files is added to the list, the citation requests or a newly created bibliography watcher |
| LatexManager.BibLoopStep | Mackup/.vscode/extensions/james-yu.latex-workshop-5.6.1/out/src/components/manager.js:282-284 | one `addBibToWatcher` call of a loop over resolved bibliography names keeps the earlier files watched and adds only a file of the list |
| LatexManager.Manager.IsRootWalk | Mackup/.vscode/extensions/james-yu.latex-workshop-5.6.1/out/src/components/manager.js:185-193 | the descent through the recorded tree answers `IsRoot` |
| LatexManager.Manager.IsRootCheck | Mackup/.vscode/extensions/james-yu.latex-workshop-5.6.1/out/src/components/manager.js:175-194 | without a rescan it answers `IsRoot` on the current tree and changes nothing; with one it answers whether `root` exists and `file` is `root` or reachable from it in the graph resolved against `root`'s directory, and when `root` exists and is not `file` the tree afterwards records that reach (`TreeScanned`) and every file the scan reached other than `root` has its children watched (when a file watcher exists) and its bibliography files watched; every path the rescan added to the list, and every citation request it added, is a child or a bibliography file of a reached file other than `root` (`AddsOnly`); the watch list only grows |
| LatexManager.Manager.UpdateRootOfFiles | Mackup/.vscode/extensions/james-yu.latex-workshop-5.6.1/out/src/components/manager.js:96-103 | every file below `file` in the tree, itself included, gets `root`, and no other entry changes |
| LatexManager.Manager.UpdateRootOfChildren | Mackup/.vscode/extensions/james-yu.latex-workshop-5.6.1/out/src/components/manager.js:99-101 | the loop assigns `root` to everything below the children, whatever their order |
| LatexManager.Manager.FindRootDir | Mackup/.vscode/extensions/james-yu.latex-workshop-5.6.1/out/src/components/manager.js:149-174 | with no workspace there is no root and nothing changes; otherwise the answer is the directory strategy's first qualifying candidate, the tree stays ranked, the watch list only grows and the bibliography watcher stays |
| LatexManager.Manager.GetRootFile | Mackup/.vscode/extensions/james-yu.latex-workshop-5.6.1/out/src/components/manager.js:28-35 | answers `RootFileValue`, and writes the active file's recorded root as the workspace's root file when there is one |
| LatexManager.Manager.SetRootFile | Mackup/.vscode/extensions/james-yu.latex-workshop-5.6.1/out/src/components/manager.js:36-38 | the workspace's root file becomes `root`, which the getter then answers when no root is recorded for the active file |
| LatexManager.Manager.GetRootDir | Mackup/.vscode/extensions/james-yu.latex-workshop-5.6.1/out/src/components/manager.js:25-27 | the `dirname` of the root file, and nothing (the throw) exactly when there is no root file; like the getter it reads, it writes the active file's recorded root as the workspace's root file when there is one and otherwise leaves the root files alone |
| LatexManager.Manager.UpdateWorkspace | Mackup/.vscode/extensions/james-yu.latex-workshop-5.6.1/out/src/components/manager.js:54-73 | the workspace becomes `WorkspaceOf(host)` |
| LatexManager.Manager.FindAllDependentFiles | Mackup/.vscode/extensions/james-yu.latex-workshop-5.6.1/out/src/components/manager.js:195-238 | a new watcher is created exactly when none exists or its list lacks the root; then the list restarts from the root (after the old list when no watcher was there to close) and grows only by existing files (`WatchExtends`), the scan fails exactly when the root does not exist, and a successful scan leaves the tree and coverage as `findDependentFiles` promises; the list is free of duplicates exactly when an old watcher was closed, or the old list was free of them and lacked the root (with no watcher the push is unguarded); after a successful scan, everything past the restarted list and every new citation request is a child or a bibliography file of a file the root's scan reached; a failed scan leaves the list exactly the restarted one and the tree, the bibliography watcher and the citation requests as they were; otherwise nothing changes |
| LatexManager.RootPushNoDup | Mackup/.vscode/extensions/james-yu.latex-workshop-5.6.1/out/src/components/manager.js:196-208 | after the root is pushed onto the list (emptied or kept) and the scan only extends it, the list is free of duplicates exactly when it was emptied, or was free of them and lacked the root |
| LatexManager.Manager.WatchAdditionalBibs | Mackup/.vscode/extensions/james-yu.latex-workshop-5.6.1/out/src/components/manager.js:231-234 | every additional bibliography file a glob matched is watched afterwards, and only those files are added to the list, the citation requests or a new bibliography watcher |
| LatexManager.Manager.ChooseRoot | Mackup/.vscode/extensions/james-yu.latex-workshop-5.6.1/out/src/components/manager.js:77-92 | the strategies are tried in order and the first answer is the root (`ChosenRoot`); short of the directory scan the tree, watch list and bibliography watcher are untouched; the tree stays ranked and the list only grows |
| LatexManager.Manager.AdoptRoot | Mackup/.vscode/extensions/james-yu.latex-workshop-5.6.1/out/src/components/manager.js:80-90 | a root the getter already answers changes nothing else; a different one is set and switched to as `Switched` states: the new watcher and its list (past the restarted list, only children and bibliography files of what the rescan reached), the tree after the root's rescan (on a missing root: the restarted list, and the tree, bibliography watcher and citation requests as they were), and the files assigned to the root |
| LatexManager.Manager.SwitchRoot | Mackup/.vscode/extensions/james-yu.latex-workshop-5.6.1/out/src/components/manager.js:83-85 | `Switched`: the watcher exists afterwards; when no watcher listed the root, a new one is created for it whose list is the root (after the old list when there was no watcher) and then grows, and a readable root's scan records its reach in the tree and watches and covers it, and adds to the list and the citation requests only children and bibliography files of that reach, while a missing root leaves the list exactly the restarted one and the tree, the bibliography watcher and the citation requests as they were (`RootWatched`); the switch throws exactly when a rescan is due and the root does not exist, leaving the root assignments alone; otherwise every file below the root in the tree is assigned to it, after a rescan exactly the scan's reach in the graph resolved against the root's directory; the getter read by the glob registration may have written the active file's recorded root back |
| LatexManager.Manager.RegisterBibGlobs | Mackup/.vscode/extensions/james-yu.latex-workshop-5.6.1/out/src/components/manager.js:225-226 | registering the glob callbacks reads the getter, which writes the active file's recorded root, if any, as the workspace's root file |
| LatexManager.Manager.WatchRoot | Mackup/.vscode/extensions/james-yu.latex-workshop-5.6.1/out/src/components/manager.js:84 | `findAllDependentFiles` creates a watcher exactly when needed, fails exactly on a missing root, and leaves a watcher in place; a created watcher, its list and the tree are as `RootWatched` states (the root's reach recorded, watched and covered, and the list past the restarted one and the new citation requests made only of its children and bibliography files; on a missing root the list is exactly the restarted one and the tree, the bibliography watcher and the citation requests are as they were); otherwise nothing changes |
| LatexManager.Manager.FindRoot | Mackup/.vscode/extensions/james-yu.latex-workshop-5.6.1/out/src/components/manager.js:74-95 | the workspace is refreshed; the outcome is the chosen root or none; the strategies change the tree and watch list only through the directory scan's rescans (`s1`: the tree stays ranked, the list only grows, the file watcher and bibliography watcher stay, and short of the directory scan nothing changes); the root changes exactly when the getter did not already answer it, and otherwise only the getter's write to the root files happens; a changed root is switched to as `Switched` states: the new watcher and list (past the restarted list, only children and bibliography files of what the root's scan reached), the tree after its rescan, a throw only on a missing root, which leaves the restarted list and the rest of the watch state as the strategies left it, and every file the root's scan reaches (in the graph resolved against its directory) assigned to it |
| LatexManager.Manager.RunBibGlobs | Mackup/.vscode/extensions/james-yu.latex-workshop-5.6.1/out/src/components/manager.js:226-235 | once the globs matched, every matched file resolved against the root directory is watched, and only those files are added to the list, the citation requests or a new bibliography watcher; with no match or no root file nothing is watched; when the globs matched, the `rootDir` getter writes the active file's recorded root as the workspace's root file, as `GetRootFile` does |
| LatexManager.Manager.OnTexChange | Mackup/.vscode/extensions/james-yu.latex-workshop-5.6.1/out/src/components/manager.js:209-212 | a changed file is rescanned against its own directory: when it exists the tree records the scan's reach and every file reached, the changed file included, has its children watched (when a file watcher exists) and its bibliography files watched, and every path added to the list and every citation request added is a child or a bibliography file of a reached file; when it does not, the tree, watch list and bibliography requests are unchanged; the tree stays ranked, the watch list only grows and the bibliography watcher stays |
| LatexManager.Manager.OnTexUnlink | Mackup/.vscode/extensions/james-yu.latex-workshop-5.6.1/out/src/components/manager.js:213-221 | the deleted path is dropped with `splice(indexOf)` and nothing else changes; the root search (the handler's `yield this.findRoot()`, which is `FindRoot`) is due exactly when the path is the root the watcher was created for |
| LatexManager.Manager.OnBibChange | Mackup/.vscode/extensions/james-yu.latex-workshop-5.6.1/out/src/components/manager.js:308-311 | a changed bibliography file is parsed again |
| LatexManager.Manager.OnBibUnlink | Mackup/.vscode/extensions/james-yu.latex-workshop-5.6.1/out/src/components/manager.js:312-317 | a deleted bibliography file's citations are forgotten and it is dropped with `splice(indexOf)` |
| ElmAnalyse.CorrectRange | Mackup/.vscode/extensions/sbrink.elm-0.17.0/out/src/elmAnalyse.js:218-229 | the one-based region converts back to exactly the zero-based range it came from |
| ElmAnalyse.CorrectRangeInverse | Mackup/.vscode/extensions/sbrink.elm-0.17.0/out/src/elmAnalyse.js:218-229 | `correctRange` is a bijection: a region is the correction of `r` exactly when `r` is its zero-based form |
| ElmAnalyse.ParseMessageInfoFileRange | Mackup/.vscode/extensions/sbrink.elm-0.17.0/out/src/elmAnalyse.js:204-210 | no `range` gives the origin range, `range.real` is answered when present, and a `range` without `real` gives nothing |
| ElmAnalyse.DescriptionMap | Mackup/.vscode/extensions/sbrink.elm-0.17.0/out/src/elmAnalyse.js:128-131 | the map's keys are exactly the table's message types |
| ElmAnalyse.DescriptionMapLookup | Mackup/.vscode/extensions/sbrink.elm-0.17.0/out/src/elmAnalyse.js:129-131 | a type maps to its entry's text unless a later entry repeats the type |
| ElmAnalyse.BuildDescriptionMap | Mackup/.vscode/extensions/sbrink.elm-0.17.0/out/src/elmAnalyse.js:128-131 | the `forEach` loop builds exactly `DescriptionMap` of the table |
| ElmAnalyse.Describe | Mackup/.vscode/extensions/sbrink.elm-0.17.0/out/src/elmAnalyse.js:211-217 | a known type's description, and "" for an unknown type |
| ElmAnalyse.DescriptionTable | Mackup/.vscode/extensions/sbrink.elm-0.17.0/out/src/elmAnalyse.js:20-131 | the constructor's map has exactly the 22 table types as keys |
| ElmAnalyse.TableShape | Mackup/.vscode/extensions/sbrink.elm-0.17.0/out/src/elmAnalyse.js:20-120 | the table has 22 entries, one text per type |
| ElmAnalyse.TypesDistinct | Mackup/.vscode/extensions/sbrink.elm-0.17.0/out/src/elmAnalyse.js:20-120 | no two table entries share a type |
| ElmAnalyse.ParseMessageInfoDetail | Mackup/.vscode/extensions/sbrink.elm-0.17.0/out/src/elmAnalyse.js:211-217 | a type outside the table gets "" |
| ElmAnalyse.DetailOfKnownType | Mackup/.vscode/extensions/sbrink.elm-0.17.0/out/src/elmAnalyse.js:211-217 | every type in the table gets its own entry's text |
| ElmAnalyse.JoinPath | Mackup/.vscode/extensions/sbrink.elm-0.17.0/out/src/elmAnalyse.js:184 | `path.join(cwd, file)` yields a path exactly when both are strings |
| ElmAnalyse.MessageStep | Mackup/.vscode/extensions/sbrink.elm-0.17.0/out/src/elmAnalyse.js:169-187 | a message is skipped exactly when it lacks data, a type or a property named by the type. Otherwise it throws exactly when its range lacks `real` or the join fails, and else it yields an analyser warning with the type as overview, the type's description as details, the corrected range and the joined file |
| ElmAnalyse.Qualifying | Mackup/.vscode/extensions/sbrink.elm-0.17.0/out/src/elmAnalyse.js:169-172 | the messages kept are qualifying messages taken from the input, no more of them than there are messages |
| ElmAnalyse.ProcessedCompletes | Mackup/.vscode/extensions/sbrink.elm-0.17.0/out/src/elmAnalyse.js:164-194 | the handler gets through the messages exactly when none of them throws |
| ElmAnalyse.ProcessedIsQualifying | Mackup/.vscode/extensions/sbrink.elm-0.17.0/out/src/elmAnalyse.js:168-189 | when it gets through, it has pushed one issue per qualifying message, in order, each the one that message yields |
| ElmAnalyse.ProcessedIssues | Mackup/.vscode/extensions/sbrink.elm-0.17.0/out/src/elmAnalyse.js:177-186 | every issue pushed, even before a throw, is an analyser warning that some message of the input yields |
| ElmAnalyse.ProcessedNext | Mackup/.vscode/extensions/sbrink.elm-0.17.0/out/src/elmAnalyse.js:168-189 | one more message skips, appends its issue, or stops the handler |
| ElmAnalyse.ProcessedStops | Mackup/.vscode/extensions/sbrink.elm-0.17.0/out/src/elmAnalyse.js:164-194 | once the handler throws, later messages change nothing |
| ElmAnalyse.ServerInfo | Mackup/.vscode/extensions/sbrink.elm-0.17.0/out/src/elmAnalyse.js:339-362 | the server info is the page's title, or "" without one |
| ElmAnalyse.ServerStateClassification | Mackup/.vscode/extensions/sbrink.elm-0.17.0/out/src/elmAnalyse.js:326-338 | not running exactly when the request fails; running exactly when the title contains "Elm Analyse" at some offset; port in use exactly for any other page |
| ElmAnalyse.Analyser.constructor | Mackup/.vscode/extensions/sbrink.elm-0.17.0/out/src/elmAnalyse.js:16-131 | the issues are the given ones, no message is pending, nothing runs and the description map holds the table |
| ElmAnalyse.Analyser.OnMessage | Mackup/.vscode/extensions/sbrink.elm-0.17.0/out/src/elmAnalyse.js:163-195 | the issues are reset and become what the handler pushed, including those before a throw; a message counts as pending only when the handler got through; a payload that cannot be parsed, or a throw, shows the error |
| ElmAnalyse.Analyser.StartAnalyseProcess | Mackup/.vscode/extensions/sbrink.elm-0.17.0/out/src/elmAnalyse.js:230-266 | a spawned analyser that is still running refuses with an error. Otherwise the server is ready unless another program holds the port (which shows an error), and an analyser is spawned exactly when the port was free |
| ElmAnalyse.Analyser.ExecActivateAnalyseProcesses | Mackup/.vscode/extensions/sbrink.elm-0.17.0/out/src/elmAnalyse.js:267-294 | nothing happens for a non-Elm document; a running analyser only gives the already-running notice; otherwise the server state decides: the 3-second wait starts exactly when the port is not taken by another program, an analyser is spawned and running exactly when nothing answered, and a taken port adds its notice |
| ElmAnalyse.Analyser.OnStartDelayElapsed | Mackup/.vscode/extensions/sbrink.elm-0.17.0/out/src/elmAnalyse.js:283-286 | a socket is opened on the workspace root and one more linter interval runs, whose handle is held |
| ElmAnalyse.Analyser.ExecStopAnalyse | Mackup/.vscode/extensions/sbrink.elm-0.17.0/out/src/elmAnalyse.js:295-317 | the issues are cleared. A spawned analyser is killed, its socket closed and the held interval released; without one only the error is shown (when notifying), and the socket and intervals stay |
| ElmAnalyse.Analyser.UpdateLinter | Mackup/.vscode/extensions/sbrink.elm-0.17.0/out/src/elmAnalyse.js:318-323 | the linter runs on the current issues exactly when a message is pending and an editor is open; afterwards a message is still pending exactly when one was and no editor is open, since the read of the active editor's document throws |

## Left out

- Logging, the output channel, status bar items, error-message texts and the structure view's `nodeProvider` refresh are not modelled. The errors the Elm client shows are kept only as a log of `Notice` values.
- Reading files and regular-expression matching are abstracted. A file is a `TexSource`: its inclusion arguments, raw bibliography arguments and whether it contains `\begin{document}`. The active editor is an `ActiveDoc` holding its magic-comment path and the same flag. The HTTP reply is reduced to its first `<title>` text.
- `findSubFiles` is not modelled: `findRoot` never calls it.
- `getCommandsTeX` and `getReferencesTeX` are not modelled: they are calls into the completer, which is not part of this model. The citation completer's `parseBibFile` and `forgetParsedBibItems` are kept as a log of requests.
- chokidar, glob and `vscode.workspace.findFiles` are not modelled: each watcher is reduced to whether it exists and which path created it. Glob results are given per glob, and glob errors are left out.
- Asynchronous interleaving is not modelled. The glob callbacks of `findAllDependentFiles` run as a separate step (`RunBibGlobs`); the 3-second timeout of `execActivateAnalyseProcesses` is `OnStartDelayElapsed`; the 500 ms interval is `UpdateLinter`, called by the host. The unlink handler's `yield this.findRoot()` is the host's next step: `OnTexUnlink` answers whether it is due.
- `elmUtils.execCmd` and `kill` are not modelled: the process and its output are reduced to `processRunning`, and `elmUtils` is not part of this model. `elmLinter.runLinter` is recorded as a lint run, and `elmLinter` is not part of this model either.
- The websocket, HTTP request and `JSON.parse` are not modelled; their results are parameters. This covers the socket's `open` and `error` handlers and `initSocketClient`'s own `try`/`catch`.
- The command registrations (`activateAnalyse`, `deactivateAnalyse`) and the `analyseEnabled` start-up check are not modelled: they only call modelled operations.
- ElmAnalyse.MessageStep: does not model a `data` that is null or not an object, a non-string `type`, a type info that is null or not an object, or a `real` array with fewer than four numbers (JavaScript would produce `NaN` or `undefined` fields). The model has a string type or none, and four integer bounds.
- ElmAnalyse.JoinPath: `path.join(cwd, file)` is modelled as `resolve(join(cwd, file))`. This agrees for an absolute workspace root, except that `join` keeps a trailing separator.
- ElmAnalyse.CorrectRange: JavaScript numbers are modelled as unbounded integers.
- LatexManager.Manager.FindDependentFiles: requires the inclusion graph reached from the scanned file to be acyclic, witnessed by a ghost rank. When a scan reaches a cycle the source recurses until the stack overflows; that is not modelled. The same holds for LatexManager.Manager.IsRootCheck, LatexManager.Manager.IsRootWalk, LatexManager.Manager.UpdateRootOfFiles, LatexManager.Manager.FindAllDependentFiles, LatexManager.Manager.WatchRoot, LatexManager.Manager.SwitchRoot, LatexManager.Manager.AdoptRoot and LatexManager.Manager.OnTexChange, and the recorded tree must be acyclic as a whole even where no walk descends.
- LatexManager.Manager.FindRoot: requires acyclicity from the files it scans, and only once it reaches them; the shared rank described below widens this. The recorded tree must be acyclic as a whole. The directory strategy's candidates count only when that strategy runs (no magic comment, the active file is not itself a root, no root is recorded for it). Of those, they count only up to the first unreadable or qualifying candidate, and each must be acyclic only if it is rescanned, that is when it exists, contains `\begin{document}` and is not the active file (`CandidatesRanked`). The root that is chosen counts as well. Files that are never scanned, such as a self-including chapter without `\begin{document}`, may form cycles. One rank serves every scan, and each scanned directory's resolution must respect it for every ranked file, including edges that directory's scan never follows. So the union of the graphs resolved against the scanned directories must be acyclic on every file reachable in it from a scanned file. For example, `/a/x.tex` is reached only by the scan from `/a`, but resolved against `/b` its `\input{y.tex}` names `/b/y.tex`, which includes itself. The source never follows that edge and ends normally, yet no rank exists, so the model does not cover that workspace. In the source a cyclic candidate overflows the stack inside the `try` around the directory scan (manager.js:155-171); the empty `catch` swallows it, so the directory strategy answers no root, leaving whatever the interrupted rescan had already recorded. That outcome is not modelled.
- LatexManager.Manager.FindRootDir: the tree and watch list after the directory strategy's rescans are bounded (the tree stays ranked, the list only grows, the bibliography watcher stays) rather than given; each rescan's own effect is what LatexManager.Manager.IsRootCheck states. FindRoot exposes the watch state they leave as `s1`.
- LatexManager.Manager.ChooseRoot: the same bound as LatexManager.Manager.FindRootDir, which it calls last.
- LatexManager.Manager.OnTexUnlink: stops at the handler's `yield this.findRoot()`; the host then runs LatexManager.Manager.FindRoot on the spliced list. Other events that the source lets in between its awaits are not modelled.
- Directories are not modelled: the file system holds files only. `fs.existsSync` is also true for a directory, so a directive whose candidate path (after the ".tex" rule) is a directory gets that directory into the tree, and the recursive `readFileSync` then throws; the model resolves such a directive as if the directory did not exist.
- LatexManager.Manager.UpdateWorkspace: `vscode.workspace.getWorkspaceFolder` and `rootPath` are inputs (`Host`).
- LatexManager.Manager.IsRootWalk: tries the children of `root` in an arbitrary order rather than `Set` insertion order. The walk changes nothing, so its answer is the same.
- LatexGraph.Tex2PdfLocation: the `latex.outputDir` setting is a parameter, and `path.resolve` is modelled for an absolute base directory.
